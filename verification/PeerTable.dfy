/** The table of connected peers, and the UDP ports that streams are sent to. */
module PeerTable {
  import opened Common

  /** The streams a peer can ask for, and None for any other channel name. */
  datatype Channel = Rgb | Thermal | Rgb2 | Thermal2 | Rgb3 | Thermal3 | Rgb4 | Thermal4

  function PortIndex(c: Channel): nat {
    match c
    case Rgb => 0
    case Thermal => 1
    case Rgb2 => 100
    case Thermal2 => 101
    case Rgb3 => 200
    case Thermal3 => 201
    case Rgb4 => 300
    case Thermal4 => 301
  }

  /** The process a peer was given: None when it could not be started. */
  datatype Peer = Peer(id: string, port: int, child: Option<nat>)

  function StreamPort(base: int, deviceCnt: nat, slot: nat, c: Channel): int {
    base + slot * deviceCnt + PortIndex(c)
  }

  /** Two slots never meet: device_cnt ports a slot, and all slots below the next channel group. */
  lemma SlotPortsApart(base: int, deviceCnt: nat, maxPeers: nat, i: nat, c: Channel, j: nat, d: Channel)
    requires deviceCnt >= 2 && maxPeers * deviceCnt <= 100 && i < j < maxPeers
    ensures StreamPort(base, deviceCnt, i, c) != StreamPort(base, deviceCnt, j, d)
  {
    RowStep(deviceCnt, i, j);
    RowStep(deviceCnt, j, maxPeers);
    assert i * deviceCnt >= 0;
  }

  class Peers {
    const slots: array<Option<Peer>>
    const deviceCnt: nat
    const streamBasePort: int
    var maxPeerCnt: nat

    /** Occupied slots hold distinct peers, each with the port of its slot and some channel. */
    ghost predicate Valid()
      reads this, slots
    {
      && maxPeerCnt <= slots.Length
      && (forall i, j :: 0 <= i < j < slots.Length && slots[i].Some? && slots[j].Some? ==>
          slots[i].value.id != slots[j].value.id)
      && (forall i :: 0 <= i < slots.Length && slots[i].Some? ==> i < maxPeerCnt && HasSlotPort(i, slots[i].value))
    }

    ghost predicate HasSlotPort(i: nat, p: Peer) {
      exists c :: p.port == StreamPort(streamBasePort, deviceCnt, i, c)
    }

    constructor (maxPeers: nat, deviceCnt: nat, streamBasePort: int)
      ensures Valid() && fresh(slots) && slots.Length == maxPeerCnt == maxPeers
      ensures this.deviceCnt == deviceCnt && this.streamBasePort == streamBasePort
      ensures forall i :: 0 <= i < maxPeers ==> slots[i] == None
    {
      slots := new Option<Peer>[maxPeers](i => None);
      this.deviceCnt, this.streamBasePort, maxPeerCnt := deviceCnt, streamBasePort, maxPeers;
    }

    method FindPeerIndex(id: string) returns (r: int)
      requires Valid()
      ensures -1 <= r < maxPeerCnt
      ensures r >= 0 ==> slots[r].Some? && slots[r].value.id == id
      ensures r == -1 ==> forall i :: 0 <= i < slots.Length && slots[i].Some? ==> slots[i].value.id != id
    {
      for i := 0 to maxPeerCnt
        invariant forall k :: 0 <= k < i && slots[k].Some? ==> slots[k].value.id != id
      {
        if slots[i].Some? && slots[i].value.id == id {
          return i;
        }
      }
      r := -1;
    }

    /** `forked` is the outcome of fork: None when it failed. A refused peer changes nothing. */
    method AddPeer(id: string, channel: Option<Channel>, forked: Option<nat>) returns (ok: bool)
      requires Valid()
      modifies slots
      ensures Valid()
      ensures ok <==> && channel.Some?
                      && (forall i :: 0 <= i < slots.Length && old(slots[i]).Some? ==> old(slots[i]).value.id != id)
                      && exists i :: 0 <= i < maxPeerCnt && old(slots[i]) == None
      ensures !ok ==> slots[..] == old(slots[..])
      ensures ok ==> exists i: nat :: i < maxPeerCnt && old(slots[i]) == None
                                      && (forall k :: 0 <= k < i ==> old(slots[k]).Some?)
                                      && slots[..] == old(slots[..])[i := Some(Peer(id,
                                          StreamPort(streamBasePort, deviceCnt, i, channel.value), forked))]
    {
      var idx := FindPeerIndex(id);
      if idx != -1 {
        return false;
      }
      var i := 0;
      while i < maxPeerCnt
        invariant 0 <= i <= maxPeerCnt && idx == -1
        invariant forall k :: 0 <= k < i ==> slots[k].Some?
      {
        if slots[i] == None {
          idx := i;
          break;
        }
        i := i + 1;
      }
      if idx == -1 || channel == None {
        return false;
      }
      var port := StreamPort(streamBasePort, deviceCnt, idx, channel.value);
      slots[idx] := Some(Peer(id, port, forked));
      ok := true;
    }

    method RemovePeer(id: string)
      requires Valid()
      modifies slots
      ensures Valid()
      ensures forall i :: 0 <= i < slots.Length ==>
                slots[i] == if old(slots[i]).Some? && old(slots[i]).value.id == id then None else old(slots[i])
    {
      var idx := FindPeerIndex(id);
      if idx != -1 {
        slots[idx] := None;
      }
    }

    method Free(final: bool)
      requires Valid()
      modifies this`maxPeerCnt, slots
      ensures Valid()
      ensures forall i :: 0 <= i < slots.Length ==> slots[i] == None
      ensures maxPeerCnt == if final then 0 else old(maxPeerCnt)
    {
      for i := 0 to maxPeerCnt
        invariant Valid() && maxPeerCnt == old(maxPeerCnt)
        invariant forall k :: 0 <= k < i ==> slots[k] == None
      {
        if slots[i].Some? {
          RemovePeer(slots[i].value.id);
        }
      }
      if final {
        maxPeerCnt := 0;
      }
    }

    /** Live peers stream to distinct ports. */
    lemma PortsDistinct(i: nat, j: nat)
      requires Valid() && deviceCnt >= 2 && slots.Length * deviceCnt <= 100
      requires i < j < slots.Length && slots[i].Some? && slots[j].Some?
      ensures slots[i].value.port != slots[j].value.port
    {
      var c :| slots[i].value.port == StreamPort(streamBasePort, deviceCnt, i, c);
      var d :| slots[j].value.port == StreamPort(streamBasePort, deviceCnt, j, d);
      SlotPortsApart(streamBasePort, deviceCnt, slots.Length, i, c, j, d);
    }
  }

  // ---------------------------------------------------------------------
  // The sinks of the pipeline.
  // ---------------------------------------------------------------------

  /** One udpsink: the encoder tee it hangs on (high or low resolution, camera 0 or 1) and its port. */
  datatype Sink = Sink(high: bool, camera: nat, port: int)

  function SinksOf(high: bool, base: int, n: nat): seq<Sink> {
    if n == 0 then [] else
    SinksOf(high, base, n - 1) + [Sink(high, 0, base + (n - 1) * 2), Sink(high, 1, base + (n - 1) * 2 + 1)]
  }

  method BuildUdpSinks(basePortHigh: int, basePortLow: int, numStreams: nat) returns (sinks: seq<Sink>)
    ensures sinks == SinksOf(true, basePortHigh, numStreams) + SinksOf(false, basePortLow, numStreams)
  {
    sinks := [];
    for i := 0 to numStreams
      invariant sinks == SinksOf(true, basePortHigh, i)
    {
      sinks := sinks + [Sink(true, 0, basePortHigh + i * 2)];
      sinks := sinks + [Sink(true, 1, basePortHigh + i * 2 + 1)];
    }
    ghost var high := sinks;
    for i := 0 to numStreams
      invariant sinks == high + SinksOf(false, basePortLow, i)
    {
      sinks := sinks + [Sink(false, 0, basePortLow + i * 2)];
      sinks := sinks + [Sink(false, 1, basePortLow + i * 2 + 1)];
    }
  }

  /** Sinks that feed `port`. */
  function Feeding(sinks: seq<Sink>, port: int): seq<Sink> {
    if sinks == [] then [] else
    Feeding(Front(sinks), port) + if Last(sinks).port == port then [Last(sinks)] else []
  }

  lemma {:induction false} FeedingAppend(a: seq<Sink>, b: seq<Sink>, port: int)
    ensures Feeding(a + b, port) == Feeding(a, port) + Feeding(b, port)
  {
    if b == [] {
      assert a + b == a;
    } else {
      assert Front(a + b) == a + Front(b);
      FeedingAppend(a, Front(b), port);
    }
  }

  /** Which of one resolution's sinks feed a port: the one of its stream and camera, or none. */
  lemma {:induction false} FeedingOf(high: bool, base: int, n: nat, port: int)
    ensures Feeding(SinksOf(high, base, n), port) ==
            if base <= port < base + 2 * n then [Sink(high, (port - base) % 2, port)] else []
  {
    if n > 0 {
      FeedingOf(high, base, n - 1, port);
      var pair := [Sink(high, 0, base + (n - 1) * 2), Sink(high, 1, base + (n - 1) * 2 + 1)];
      FeedingAppend(SinksOf(high, base, n - 1), pair, port);
      assert Front(pair) == [pair[0]] && Front([pair[0]]) == [];
      assert Feeding([pair[0]], port) == if pair[0].port == port then [pair[0]] else [];
    }
  }

  /** With two devices and matching base ports, the port a peer is given for one of the four built
      channels is fed by exactly one sink, of that channel's camera and resolution; the ports of the
      channels that are not built are fed by none. */
  lemma PeerPortIsFed(base: int, numStreams: nat, slot: nat, c: Channel)
    requires slot < numStreams <= 50
    ensures var port := StreamPort(base, 2, slot, c);
            Feeding(SinksOf(true, base, numStreams) + SinksOf(false, base + 100, numStreams), port) ==
            match c
            case Rgb => [Sink(true, 0, port)]
            case Thermal => [Sink(true, 1, port)]
            case Rgb2 => [Sink(false, 0, port)]
            case Thermal2 => [Sink(false, 1, port)]
            case _ => []
  {
    hide SinksOf; hide Feeding;
    var port := StreamPort(base, 2, slot, c);
    FeedingAppend(SinksOf(true, base, numStreams), SinksOf(false, base + 100, numStreams), port);
    FeedingOf(true, base, numStreams, port);
    FeedingOf(false, base + 100, numStreams, port);
  }

  // ---------------------------------------------------------------------
  // get_udp_port.
  // ---------------------------------------------------------------------

  datatype Process = Sender | Recorder | EventRecorder

  function UdpPort(base: int, deviceCnt: nat, maxStreamCnt: nat, process: Process, device: nat, choice: nat,
                   index: nat): int {
    var maxSender := base + 100 * choice + deviceCnt * maxStreamCnt - 1;
    var maxRecorder := maxSender + 1 + deviceCnt - 1;
    match process
    case Sender => base + 100 * choice + deviceCnt * index + device
    case Recorder => maxSender + 1 + device
    case EventRecorder => maxRecorder + 1 + device
  }

  /** A port is `row * deviceCnt + device` above the base of its stream choice. */
  function PortRow(maxStreamCnt: nat, process: Process, index: nat): nat {
    match process
    case Sender => index
    case Recorder => maxStreamCnt
    case EventRecorder => maxStreamCnt + 1
  }

  lemma PortByRow(base: int, deviceCnt: nat, maxStreamCnt: nat, process: Process, device: nat, choice: nat, index: nat)
    ensures UdpPort(base, deviceCnt, maxStreamCnt, process, device, choice, index) ==
            base + 100 * choice + PortRow(maxStreamCnt, process, index) * deviceCnt + device
  {
    assert (maxStreamCnt + 1) * deviceCnt == maxStreamCnt * deviceCnt + deviceCnt;
  }

  lemma RowsApart(deviceCnt: nat, row: nat, device: nat, row': nat, device': nat)
    requires device < deviceCnt && device' < deviceCnt
    requires row * deviceCnt + device == row' * deviceCnt + device'
    ensures row == row' && device == device'
  {
    if row < row' {
      RowStep(deviceCnt, row, row');
    } else if row' < row {
      RowStep(deviceCnt, row', row);
    }
  }

  lemma RowFits(deviceCnt: nat, row: nat, rows: nat, device: nat)
    requires device < deviceCnt && row < rows && rows * deviceCnt <= 100
    ensures 0 <= row * deviceCnt + device < 100
  {
    RowStep(deviceCnt, row, rows);
    assert row * deviceCnt >= 0;
  }

  /** A sender's port is the one that a peer of that slot, on the channel of that device and choice, is
      given when there are two devices. */
  lemma SenderPortIsPeers(base: int, maxStreamCnt: nat, device: nat, choice: nat, index: nat, c: Channel)
    requires device < 2 && choice < 4
    requires c == [Rgb, Thermal, Rgb2, Thermal2, Rgb3, Thermal3, Rgb4, Thermal4][2 * choice + device]
    ensures UdpPort(base, 2, maxStreamCnt, Sender, device, choice, index) == StreamPort(base, 2, index, c)
  {
  }

  /** Recorder and event recorder come right behind the senders. */
  lemma RecordersFollow(base: int, deviceCnt: nat, maxStreamCnt: nat, device: nat, choice: nat)
    requires deviceCnt > 0 && maxStreamCnt > 0
    ensures UdpPort(base, deviceCnt, maxStreamCnt, Recorder, 0, choice, 0) ==
            UdpPort(base, deviceCnt, maxStreamCnt, Sender, deviceCnt - 1, choice, maxStreamCnt - 1) + 1
    ensures UdpPort(base, deviceCnt, maxStreamCnt, EventRecorder, 0, choice, 0) ==
            UdpPort(base, deviceCnt, maxStreamCnt, Recorder, deviceCnt - 1, choice, 0) + 1
  {
    PortByRow(base, deviceCnt, maxStreamCnt, Sender, deviceCnt - 1, choice, maxStreamCnt - 1);
    assert (maxStreamCnt - 1) * deviceCnt + deviceCnt == maxStreamCnt * deviceCnt;
  }

  /** Equal ports mean equal stream choice, equal device and equal row (a stream index, the recorder or
      the event recorder), as long as one choice's ports fit below the next one's. */
  lemma UdpPortsDistinct(base: int, deviceCnt: nat, maxStreamCnt: nat,
                         process: Process, device: nat, choice: nat, index: nat,
                         process': Process, device': nat, choice': nat, index': nat)
    requires (maxStreamCnt + 2) * deviceCnt <= 100
    requires device < deviceCnt && device' < deviceCnt && index < maxStreamCnt && index' < maxStreamCnt
    requires UdpPort(base, deviceCnt, maxStreamCnt, process, device, choice, index) ==
             UdpPort(base, deviceCnt, maxStreamCnt, process', device', choice', index')
    ensures process == process' && device == device' && choice == choice'
    ensures process == Sender ==> index == index'
  {
    var row, row' := PortRow(maxStreamCnt, process, index), PortRow(maxStreamCnt, process', index');
    PortByRow(base, deviceCnt, maxStreamCnt, process, device, choice, index);
    PortByRow(base, deviceCnt, maxStreamCnt, process', device', choice', index');
    RowFits(deviceCnt, row, maxStreamCnt + 2, device);
    RowFits(deviceCnt, row', maxStreamCnt + 2, device');
    assert choice == choice';
    RowsApart(deviceCnt, row, device, row', device');
  }
}
