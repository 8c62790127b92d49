/** The pure and state-changing logic of the peer protocol (Server.go): the
    12-byte command codec, the known-node list, and the handlers as
    sequential updates of the node's package-level state. Sockets, gob
    decoding and the empty send functions are not modelled: a handler takes
    an already-decoded payload and returns the messages it would send. */
module Server {
  import opened Encoding
  import opened Blocks
  import opened Transactions

  const CommandLength: nat := 12
  const NodeVersion: int := 1
  const SeedNode: Bytes := Ascii("localhost:3000")
  const VersionCommand: Bytes := Ascii("version")
  const BlockKind: Bytes := Ascii("block")
  const TxKind: Bytes := Ascii("tx")

  datatype Version = Version(Version: int, BestHeight: int, AddFrom: Bytes)
  datatype Inv = Inv(AddFrom: Bytes, Type: Bytes, Items: seq<Bytes>)
  datatype GetData = GetData(AddFrom: Bytes, Type: Bytes, ID: Bytes)

  /** A message a handler sends: the call of sendGetBlocks, sendVersion,
      sendGetData, sendBlock or sendTx it makes. */
  datatype Message =
    | GetBlocksMsg(to: Bytes)
    | VersionMsg(to: Bytes, version: Version)
    | GetDataMsg(to: Bytes, kind: Bytes, id: Bytes)
    | BlockMsg(to: Bytes, block: Block)
    | TxMsg(to: Bytes, tx: Transaction)

  /** How a handler ends: normally, with the messages it sent, or in a panic
      (an index out of range or a failed decode). */
  datatype Outcome = Done(sent: seq<Message>) | Panic

  predicate IsAscii(s: Bytes)
  {
    forall i :: 0 <= i < |s| ==> s[i] < 128
  }

  predicate NoDuplicates(s: seq<Bytes>)
  {
    forall i, j :: 0 <= i < j < |s| ==> s[i] != s[j]
  }

  function Zeros(n: nat): (z: Bytes)
    ensures |z| == n
  {
    seq(n, _ => 0)
  }

  // ---------------------------------------------------------------------------
  // The command codec

  /** commandToBytes: the command's bytes at the front of a 12-byte array of
      zeros. A command is an ASCII literal of at most 12 bytes at every call
      site, so `range` walks it byte by byte. */
  method CommandToBytes(command: Bytes) returns (r: Bytes)
    requires |command| <= CommandLength && IsAscii(command)
    ensures |r| == CommandLength
    ensures forall i :: 0 <= i < |command| ==> r[i] == command[i]
    ensures forall i :: |command| <= i < CommandLength ==> r[i] == 0
    ensures r == command + Zeros(CommandLength - |command|)
  {
    var bytes := new byte[CommandLength](_ => 0);
    for i := 0 to |command|
      invariant forall k :: 0 <= k < i ==> bytes[k] == command[k]
      invariant forall k :: i <= k < CommandLength ==> bytes[k] == 0
    {
      bytes[i] := command[i];
    }
    r := bytes[..];
  }

  /** bytesToCommand: the input with every zero byte dropped, in order. */
  method BytesToCommand(data: Bytes) returns (command: Bytes)
    ensures command == Without(data, 0)
    ensures 0 !in command
    ensures forall b :: b in command <==> b in data && b != 0
  {
    command := [];
    for i := 0 to |data|
      invariant command == Without(data[..i], 0)
    {
      assert data[..i + 1] == data[..i] + [data[i]];
      WithoutAppend(data[..i], [data[i]], 0);
      if data[i] != 0 {
        command := command + [data[i]];
      }
    }
    assert data[..|data|] == data;
    WithoutMembers(data, 0);
  }

  /** Padding with zeros and then dropping the zeros gives back any command
      that has no zero byte of its own. */
  lemma CommandRoundTrip(c: Bytes, n: nat)
    requires 0 !in c
    ensures Without(c + Zeros(n), 0) == c
  {
    WithoutAppend(c, Zeros(n), 0);
    WithoutNothing(c, 0);
    ZerosVanish(n);
  }

  lemma {:induction false} ZerosVanish(n: nat)
    ensures Without(Zeros(n), 0) == []
  {
    if n > 0 {
      assert Zeros(n)[1..] == Zeros(n - 1);
      ZerosVanish(n - 1);
    }
  }

  /** A command sent with commandToBytes is read back unchanged. */
  method CommandCodecRoundTrip(command: Bytes) returns (frame: Bytes, decoded: Bytes)
    requires |command| <= CommandLength && IsAscii(command) && 0 !in command
    ensures |frame| == CommandLength
    ensures decoded == command
  {
    frame := CommandToBytes(command);
    decoded := BytesToCommand(frame);
    CommandRoundTrip(command, CommandLength - |command|);
  }

  /** `request[:commandLength]` on the buffer ioutil.ReadAll returns: the
      slice is bounded by the buffer's capacity (at least 512 bytes, zero
      past the data read), so a request shorter than 12 bytes reads as
      itself followed by zeros. */
  function CommandFrame(request: Bytes): (frame: Bytes)
    ensures |frame| == CommandLength
    ensures |request| >= CommandLength ==> frame == request[..CommandLength]
    ensures |request| < CommandLength ==> frame == request + Zeros(CommandLength - |request|)
  {
    if |request| >= CommandLength then request[..CommandLength]
    else request + Zeros(CommandLength - |request|)
  }

  /** The command read from a request is the request's first 12 bytes, or
      all of a shorter request, with every zero byte dropped. */
  lemma FrameCommand(request: Bytes)
    ensures |request| < CommandLength ==>
      Without(CommandFrame(request), 0) == Without(request, 0)
    ensures |request| >= CommandLength ==>
      Without(CommandFrame(request), 0) == Without(request[..CommandLength], 0)
  {
    if |request| < CommandLength {
      var n := CommandLength - |request|;
      WithoutAppend(request, Zeros(n), 0);
      ZerosVanish(n);
      assert Without(request, 0) + [] == Without(request, 0);
    }
  }

  // ---------------------------------------------------------------------------
  // The node's state

  /** `mempool[key].ID == nil`: true for a missing key too, since Go then
      yields the zero Transaction. */
  predicate MempoolLacks(mempool: map<Bytes, Transaction>, key: Bytes)
    ensures MempoolLacks(mempool, key) <==>
      (if key in mempool then mempool[key] else Transaction([], [], [])).ID == []
  {
    key !in mempool || mempool[key].ID == []
  }

  class Node {
    var nodeAddress: Bytes
    var knownNodes: seq<Bytes>
    var blocksInTransit: seq<Bytes>
    var mempool: map<Bytes, Transaction>

    /** knownNodes never holds an address twice. */
    ghost predicate Valid()
      reads this
    {
      NoDuplicates(knownNodes)
    }

    /** The package-level variables at start-up: the seed node is the one
        known node, nothing is in transit and the mempool is empty. */
    constructor (address: Bytes)
      ensures Valid()
      ensures nodeAddress == address
      ensures knownNodes == [SeedNode] && blocksInTransit == [] && mempool == map[]
    {
      nodeAddress := address;
      knownNodes := [SeedNode];
      blocksInTransit := [];
      mempool := map[];
    }

    /** nodeIsKnown: a linear search of knownNodes. */
    method NodeIsKnown(address: Bytes) returns (known: bool)
      ensures known <==> address in knownNodes
    {
      for i := 0 to |knownNodes|
        invariant address !in knownNodes[..i]
      {
        if knownNodes[i] == address {
          return true;
        }
      }
      assert knownNodes[..|knownNodes|] == knownNodes;
      return false;
    }

    /** handleVersion over an already-decoded payload, with the local best
        height passed in: ask for blocks when behind, answer with our own
        version when ahead, and register the sender if it is new. */
    method HandleVersion(payload: Version, myBestHeight: int) returns (sent: seq<Message>)
      requires Valid()
      modifies this`knownNodes
      ensures Valid()
      ensures sent == [GetBlocksMsg(payload.AddFrom)] <==> myBestHeight < payload.BestHeight
      ensures (sent == [VersionMsg(payload.AddFrom, Version(NodeVersion, myBestHeight, nodeAddress))])
        <==> myBestHeight > payload.BestHeight
      ensures sent == [] <==> myBestHeight == payload.BestHeight
      ensures payload.AddFrom in knownNodes
      ensures knownNodes == if payload.AddFrom in old(knownNodes) then old(knownNodes)
                            else old(knownNodes) + [payload.AddFrom]
    {
      var foreignerBestHeight := payload.BestHeight;
      if myBestHeight < foreignerBestHeight {
        sent := [GetBlocksMsg(payload.AddFrom)];
      } else if myBestHeight > foreignerBestHeight {
        sent := [VersionMsg(payload.AddFrom, Version(NodeVersion, myBestHeight, nodeAddress))];
      } else {
        sent := [];
      }
      var known := NodeIsKnown(payload.AddFrom);
      if !known {
        knownNodes := knownNodes + [payload.AddFrom];
      }
    }

    /** handleInv over an already-decoded payload. For blocks: the items
        become the in-transit list, the first is requested and then every
        copy of it is filtered out. For a transaction: the first item is
        requested unless the mempool already holds it. */
    method HandleInv(payload: Inv) returns (r: Outcome)
      modifies this`blocksInTransit
      ensures payload.Type == BlockKind && payload.Items == [] ==>
        r == Panic && blocksInTransit == []
      ensures payload.Type == BlockKind && payload.Items != [] ==>
        && r == Done([GetDataMsg(payload.AddFrom, BlockKind, payload.Items[0])])
        && blocksInTransit == Without(payload.Items, payload.Items[0])
      ensures payload.Type == TxKind && payload.Items == [] ==>
        r == Panic && blocksInTransit == old(blocksInTransit)
      ensures payload.Type == TxKind && payload.Items != [] ==>
        && blocksInTransit == old(blocksInTransit)
        && (MempoolLacks(mempool, HexEncode(payload.Items[0])) ==>
              r == Done([GetDataMsg(payload.AddFrom, TxKind, payload.Items[0])]))
        && (!MempoolLacks(mempool, HexEncode(payload.Items[0])) ==> r == Done([]))
      ensures payload.Type != BlockKind && payload.Type != TxKind ==>
        r == Done([]) && blocksInTransit == old(blocksInTransit)
    {
      var sent: seq<Message> := [];
      if payload.Type == BlockKind {
        blocksInTransit := payload.Items;
        if |payload.Items| == 0 {
          return Panic;
        }
        var blockHash := payload.Items[0];
        sent := sent + [GetDataMsg(payload.AddFrom, BlockKind, blockHash)];
        var newInTransit: seq<Bytes> := [];
        for i := 0 to |blocksInTransit|
          invariant blocksInTransit == payload.Items
          invariant newInTransit == Without(blocksInTransit[..i], blockHash)
        {
          var b := blocksInTransit[i];
          assert blocksInTransit[..i + 1] == blocksInTransit[..i] + [b];
          WithoutAppend(blocksInTransit[..i], [b], blockHash);
          if b != blockHash {
            newInTransit := newInTransit + [b];
          }
        }
        assert blocksInTransit[..|blocksInTransit|] == blocksInTransit;
        blocksInTransit := newInTransit;
      }
      if payload.Type == TxKind {
        if |payload.Items| == 0 {
          return Panic;
        }
        var txID := payload.Items[0];
        if MempoolLacks(mempool, HexEncode(txID)) {
          sent := sent + [GetDataMsg(payload.AddFrom, TxKind, txID)];
        }
      }
      return Done(sent);
    }

    /** handleGetData over an already-decoded payload. A block comes from the
        chain lookup passed in as `found` (a lookup error panics); a
        transaction is read from the mempool, the zero Transaction when
        absent. */
    method HandleGetData(payload: GetData, found: Option<Block>) returns (r: Outcome)
      ensures payload.Type == BlockKind ==>
        r == if found.None? then Panic else Done([BlockMsg(payload.AddFrom, found.value)])
      ensures payload.Type == TxKind ==>
        var key := HexEncode(payload.ID);
        r == Done([TxMsg(payload.AddFrom, if key in mempool then mempool[key] else Transaction([], [], []))])
      ensures payload.Type != BlockKind && payload.Type != TxKind ==> r == Done([])
    {
      var sent: seq<Message> := [];
      if payload.Type == BlockKind {
        if found.None? {
          return Panic;
        }
        sent := sent + [BlockMsg(payload.AddFrom, found.value)];
      }
      if payload.Type == TxKind {
        var txID := HexEncode(payload.ID);
        var tx := if txID in mempool then mempool[txID] else Transaction([], [], []);
        sent := sent + [TxMsg(payload.AddFrom, tx)];
      }
      return Done(sent);
    }

    /** handleConnection over a whole request, with the result of
        handleVersion's gob decoder passed in as `decoded` (None when it
        fails). The command is read from the 12-byte frame at the front of
        the request; only "version" is dispatched. */
    method HandleConnection(request: Bytes, decoded: Option<Version>, myBestHeight: int)
      returns (r: Outcome)
      requires Valid()
      modifies this`knownNodes
      ensures Valid()
      ensures var isVersion := Without(CommandFrame(request), 0) == VersionCommand;
        && (!isVersion ==> r == Done([]) && knownNodes == old(knownNodes))
        && (isVersion && decoded.None? ==> r == Panic && knownNodes == old(knownNodes))
        && (isVersion && decoded.Some? ==> var p := decoded.value;
              && (r == Done([GetBlocksMsg(p.AddFrom)]) <==> myBestHeight < p.BestHeight)
              && (r == Done([VersionMsg(p.AddFrom, Version(NodeVersion, myBestHeight, nodeAddress))])
                  <==> myBestHeight > p.BestHeight)
              && (r == Done([]) <==> myBestHeight == p.BestHeight)
              && knownNodes == if p.AddFrom in old(knownNodes) then old(knownNodes)
                               else old(knownNodes) + [p.AddFrom])
    {
      var command := BytesToCommand(CommandFrame(request));
      if command == VersionCommand {
        if decoded.None? {
          return Panic;
        }
        var sent := HandleVersion(decoded.value, myBestHeight);
        return Done(sent);
      }
      return Done([]);
    }
  }
}
