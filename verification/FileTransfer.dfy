/** The file broadcast: the server cuts a file into 16-byte messages (serverLTE/packet_handler.c), the
    client appends them to its copy (clientLTE/handle_messages.c). */
module FileTransfer {
  const BUFFER_SIZE := 16

  type Byte = b: nat | b < 0x100

  function Zeros(n: nat): seq<Byte> { seq(n, _ => 0) }

  /** The number of data messages for a file of n bytes. */
  function Packets(n: nat): nat { (n + BUFFER_SIZE - 1) / BUFFER_SIZE }

  /** What arrives: the file, filled up with zero bytes to the next multiple of 16. */
  function Padded(file: seq<Byte>): seq<Byte> {
    file + Zeros(BUFFER_SIZE * Packets(|file|) - |file|)
  }

  /** memset and fread at one offset: at the end of the file the rest of the buffer stays zero. */
  method ReadBuffer(file: seq<Byte>, offset: nat) returns (buffer: seq<Byte>)
    requires offset < |file|
    ensures |buffer| == BUFFER_SIZE
    ensures forall i :: 0 <= i < BUFFER_SIZE ==> buffer[i] == if offset + i < |file| then file[offset + i] else 0
  {
    var n := if |file| - offset < BUFFER_SIZE then |file| - offset else BUFFER_SIZE;
    buffer := file[offset..offset + n] + Zeros(BUFFER_SIZE - n);
  }

  /** The receiving client: its copy of the file and the global counter. */
  class Receiver {
    var copy: seq<Byte>
    var bytesReceived: int
    var packetsReceived: int

    /** download_data, and the count that its caller keeps. */
    method DownloadData(buffer: seq<Byte>)
      requires |buffer| == BUFFER_SIZE
      modifies this
      ensures copy == old(copy) + buffer
      ensures bytesReceived == old(bytesReceived) + BUFFER_SIZE && packetsReceived == old(packetsReceived) + 1
    {
      copy := copy + buffer;
      bytesReceived := bytesReceived + BUFFER_SIZE;
      packetsReceived := packetsReceived + 1;
    }
  }

  /** The chunk loop of broadcast_sample with a client at the other end, when every send works. */
  method Broadcast(file: seq<Byte>, client: Receiver) returns (packetsSent: nat)
    modifies client
    ensures client.copy == old(client.copy) + Padded(file)
    ensures packetsSent == Packets(|file|)
    ensures client.packetsReceived == old(client.packetsReceived) + packetsSent
    ensures client.bytesReceived == old(client.bytesReceived) + BUFFER_SIZE * packetsSent
  {
    var bytesRead := 0;
    packetsSent := 0;
    while bytesRead < |file|
      invariant bytesRead == BUFFER_SIZE * packetsSent && packetsSent <= Packets(|file|)
      invariant client.copy == old(client.copy) + Padded(file)[..bytesRead]
      invariant client.packetsReceived == old(client.packetsReceived) + packetsSent
      invariant client.bytesReceived == old(client.bytesReceived) + BUFFER_SIZE * packetsSent
    {
      var buffer := ReadBuffer(file, bytesRead);
      assert Padded(file)[..bytesRead + BUFFER_SIZE] == Padded(file)[..bytesRead] + buffer;
      bytesRead := bytesRead + BUFFER_SIZE;
      client.DownloadData(buffer);
      packetsSent := packetsSent + 1;
    }
    assert packetsSent == Packets(|file|) && Padded(file)[..bytesRead] == Padded(file);
  }

  /** Nothing of the file is lost, and less than one buffer is added. */
  lemma ReceivedBeginsWithFile(file: seq<Byte>)
    ensures file <= Padded(file) && |Padded(file)| < |file| + BUFFER_SIZE
    ensures |Padded(file)| % BUFFER_SIZE == 0
  {
    assert |Padded(file)| == BUFFER_SIZE * Packets(|file|);
  }

  /** The client gets the file itself exactly when its size is a multiple of 16. */
  lemma TransferIsExact(file: seq<Byte>)
    ensures Padded(file) == file <==> |file| % BUFFER_SIZE == 0
  {
    assert |Padded(file)| == BUFFER_SIZE * Packets(|file|);
  }

  /** Sizes are not sent: a client cannot tell two files apart exactly when they need equally many
      messages and one is the other followed by zero bytes. */
  lemma SameTransfer(f: seq<Byte>, g: seq<Byte>)
    requires |f| <= |g|
    ensures Padded(f) == Padded(g) <==> Packets(|f|) == Packets(|g|) && g == f + Zeros(|g| - |f|)
  {
    var p, q := Padded(f), Padded(g);
    if p == q {
      assert |p| == BUFFER_SIZE * Packets(|f|) && |q| == BUFFER_SIZE * Packets(|g|);
      forall i | 0 <= i < |g| ensures g[i] == (f + Zeros(|g| - |f|))[i] {
        assert p[i] == q[i];
      }
    }
  }
}
