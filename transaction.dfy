/** UTXO transactions (Transaction.go): the records, the coinbase test,
    locking an output to an address, the transaction id, and the two
    constructors. Go's value structs are datatypes here; a method of Go that
    updates its receiver through a pointer (Lock, SetID) is a function that
    returns the updated record. */
module Transactions {
  import opened Encoding
  import opened Crypto
  import opened Wallets

  const Subsidy: int := 10

  datatype TXInput = TXInput(Txid: Bytes, Vout: int, Signature: Bytes, PubKey: Bytes)
  datatype TXOutput = TXOutput(Value: int, PubKeyHash: Bytes)
  datatype Transaction = Transaction(ID: Bytes, Vin: seq<TXInput>, Vout: seq<TXOutput>)

  /** The gob encoding of a transaction, an opaque byte string. */
  const GobEncode: Transaction -> Bytes

  /** How a constructor of Transaction.go gives up: `os.Exit(1)` on a
      transfer to oneself, `log.Panic` on short funds or a txid that is not
      hex, and a slice-bounds panic in Lock on an address that decodes to
      fewer than five bytes. */
  datatype Failure = ExitSelfTransfer | PanicNotEnoughFunds | PanicBadTxid | PanicAddressTooShort
  datatype Result<T> = Ok(value: T) | Err(failure: Failure)

  /** IsCoinbase: a single input that refers to no earlier output (an empty
      txid and the index -1). */
  predicate IsCoinbase(tx: Transaction)
    ensures IsCoinbase(tx) <==>
      exists sig, key :: tx.Vin == [TXInput([], -1, sig, key)]
  {
    |tx.Vin| == 1 && |tx.Vin[0].Txid| == 0 && tx.Vin[0].Vout == -1
  }

  /** IsLockedWithKey: `bytes.Compare` finds the output's key hash and the
      given one equal, byte for byte. */
  predicate IsLockedWithKey(out: TXOutput, pubKeyHash: Bytes)
    ensures IsLockedWithKey(out, pubKeyHash) <==>
      && |out.PubKeyHash| == |pubKeyHash|
      && forall i :: 0 <= i < |pubKeyHash| ==> out.PubKeyHash[i] == pubKeyHash[i]
  {
    out.PubKeyHash == pubKeyHash
  }

  /** UsesKey: the input's public key hashes to the given key hash, i.e. an
      output locked to that hash is one this input's key can unlock. Only a
      20-byte hash can match. */
  predicate UsesKey(input: TXInput, pubKeyHash: Bytes)
    ensures UsesKey(input, pubKeyHash) <==>
      IsLockedWithKey(TXOutput(0, HashPubKey(input.PubKey)), pubKeyHash)
    ensures UsesKey(input, pubKeyHash) ==> |pubKeyHash| == 20
  {
    HashPubKey(input.PubKey) == pubKeyHash
  }

  /** Lock: Base58-decode the address and keep the bytes between the version
      byte and the 4-byte checksum as the output's public-key hash. */
  function Lock(out: TXOutput, address: Bytes): (r: Result<TXOutput>)
    ensures r.Ok? <==> |Base58Decode(address)| >= 5
    ensures r.Err? ==> r.failure == PanicAddressTooShort
    ensures r.Ok? ==> var d := Base58Decode(address);
      && r.value.Value == out.Value
      && |r.value.PubKeyHash| == |d| - 5
      && d == d[..1] + r.value.PubKeyHash + d[|d| - AddressChecksumLen..]
  {
    var pubKeyHash := Base58Decode(address);
    if |pubKeyHash| < 1 + AddressChecksumLen then Err(PanicAddressTooShort)
    else
      var stripped := pubKeyHash[1..|pubKeyHash| - AddressChecksumLen];
      assert pubKeyHash == pubKeyHash[..1] + stripped + pubKeyHash[|pubKeyHash| - AddressChecksumLen..];
      Ok(out.(PubKeyHash := stripped))
  }

  /** NewTXOutput: an output of `value` locked to `address`. */
  function NewTXOutput(value: int, address: Bytes): (r: Result<TXOutput>)
    ensures r.Ok? <==> |Base58Decode(address)| >= 5
    ensures r.Err? ==> r.failure == PanicAddressTooShort
    ensures r.Ok? ==> var d := Base58Decode(address);
      && r.value.Value == value
      && IsLockedWithKey(r.value, d[1..|d| - AddressChecksumLen])
  {
    Lock(TXOutput(value, []), address)
  }

  /** SetID: the id is the SHA-256 of the gob encoding of the transaction as
      it stands, the id field included. */
  function SetID(tx: Transaction): (r: Transaction)
    ensures |r.ID| == 32 && r.ID == Sha256(GobEncode(tx))
    ensures r.Vin == tx.Vin && r.Vout == tx.Vout
  {
    tx.(ID := Sha256(GobEncode(tx)))
  }

  /** `fmt.Sprintf("Reward to '%s'", to)` */
  function RewardMemo(to: Bytes): Bytes
  {
    Ascii("Reward to '") + to + Ascii("'")
  }

  function NewCoinbaseTX(to: Bytes, data: Bytes): (r: Result<Transaction>)
    ensures r.Ok? <==> |Base58Decode(to)| >= 5
    ensures r.Err? ==> r.failure == PanicAddressTooShort
    ensures r.Ok? ==> var tx := r.value;
      && IsCoinbase(tx)
      && tx.Vin[0].Signature == []
      && tx.Vin[0].PubKey == (if data == [] then RewardMemo(to) else data)
      && |tx.Vout| == 1 && tx.Vout[0].Value == Subsidy
      && Lock(TXOutput(Subsidy, []), to) == Ok(tx.Vout[0])
      && tx.ID == Sha256(GobEncode(Transaction([], tx.Vin, tx.Vout)))
  {
    var memo := if data == [] then RewardMemo(to) else data;
    var txin := TXInput([], -1, [], memo);
    match NewTXOutput(Subsidy, to)
    case Err(e) => Err(e)
    case Ok(txout) => Ok(SetID(Transaction([], [txin], [txout])))
  }

  /** A coinbase paying to a wallet's address is locked to that wallet's key
      hash, provided Base58 decoding undoes encoding. */
  lemma CoinbaseToWalletLocked(w: Wallet, data: Bytes)
    requires Base58RoundTrips()
    ensures var r := NewCoinbaseTX(GetAddress(w), data);
      r.Ok? && IsCoinbase(r.value) && IsLockedWithKey(r.value.Vout[0], HashPubKey(w.PublicKey))
  {
    LockToWalletAddress(w, Subsidy);
  }

  /** Round trip of address and lock: an output made for a wallet's address
      stores exactly that wallet's public-key hash. */
  lemma LockToWalletAddress(w: Wallet, value: int)
    requires Base58RoundTrips()
    ensures NewTXOutput(value, GetAddress(w)) == Ok(TXOutput(value, HashPubKey(w.PublicKey)))
  {
    var payload := AddressPayload(w);
    assert Base58Decode(Base58Encode(payload)) == payload;
    assert payload[1..|payload| - AddressChecksumLen] == HashPubKey(w.PublicKey);
  }

  // ---------------------------------------------------------------------------
  // Spending: NewUTXOTransaction

  /** What FindSpendableOutputs hands over, in the order the map is walked:
      hex-encoded transaction ids, each with the indexes of its outputs. */
  type Spendable = seq<(Bytes, seq<int>)>

  /** The inputs built for one transaction id, one per output index. */
  function InputsFor(txID: Bytes, outs: seq<int>, pubKey: Bytes): seq<TXInput>
  {
    seq(|outs|, k requires 0 <= k < |outs| => TXInput(txID, outs[k], [], pubKey))
  }

  /** All inputs, in the order the loop builds them; the first id that is not
      valid hex fails the whole construction. */
  function Inputs(valid: Spendable, pubKey: Bytes): Result<seq<TXInput>>
  {
    if valid == [] then Ok([])
    else match Inputs(valid[..|valid| - 1], pubKey)
      case Err(e) => Err(e)
      case Ok(before) =>
        match HexDecode(valid[|valid| - 1].0)
        case None => Err(PanicBadTxid)
        case Some(txID) => Ok(before + InputsFor(txID, valid[|valid| - 1].1, pubKey))
  }

  function CountOuts(valid: Spendable): nat
  {
    if valid == [] then 0 else CountOuts(valid[..|valid| - 1]) + |valid[|valid| - 1].1|
  }

  /** Inputs succeeds exactly when every id is hex; then there is one input
      per (id, index) pair, unsigned and carrying the wallet's public key. */
  lemma {:induction false} InputsShape(valid: Spendable, pubKey: Bytes)
    ensures Inputs(valid, pubKey).Ok? <==> forall i :: 0 <= i < |valid| ==> HexDecode(valid[i].0).Some?
    ensures Inputs(valid, pubKey).Err? ==> Inputs(valid, pubKey).failure == PanicBadTxid
    ensures Inputs(valid, pubKey).Ok? ==> var ins := Inputs(valid, pubKey).value;
      && |ins| == CountOuts(valid)
      && (forall k :: 0 <= k < |ins| ==> ins[k].Signature == [] && ins[k].PubKey == pubKey)
      && (forall i, j :: 0 <= i < |valid| && 0 <= j < |valid[i].1| ==>
            TXInput(HexDecode(valid[i].0).value, valid[i].1[j], [], pubKey) in ins)
  {
    if valid != [] {
      var front := valid[..|valid| - 1];
      InputsShape(front, pubKey);
      assert forall i :: 0 <= i < |front| ==> front[i] == valid[i];
      if Inputs(valid, pubKey).Ok? {
        var before := Inputs(front, pubKey).value;
        var txID := HexDecode(valid[|valid| - 1].0).value;
        var last := InputsFor(txID, valid[|valid| - 1].1, pubKey);
        var ins := Inputs(valid, pubKey).value;
        assert ins == before + last;
        forall i, j | 0 <= i < |valid| && 0 <= j < |valid[i].1|
          ensures TXInput(HexDecode(valid[i].0).value, valid[i].1[j], [], pubKey) in ins
        {
          if i < |front| {
            assert TXInput(HexDecode(front[i].0).value, front[i].1[j], [], pubKey) in before;
          } else {
            assert last[j] == TXInput(txID, valid[i].1[j], [], pubKey);
          }
        }
      }
    }
  }

  /** Every input NewUTXOTransaction builds for a wallet uses that wallet's
      key: its public key hashes to the wallet's public-key hash. */
  lemma SpendingInputsUseWalletKey(w: Wallet, valid: Spendable)
    requires Inputs(valid, w.PublicKey).Ok?
    ensures forall input :: input in Inputs(valid, w.PublicKey).value ==> UsesKey(input, HashPubKey(w.PublicKey))
  {
    InputsShape(valid, w.PublicKey);
  }

  function SumValues(outs: seq<TXOutput>): int
  {
    if outs == [] then 0 else SumValues(outs[..|outs| - 1]) + outs[|outs| - 1].Value
  }

  /** NewUTXOTransaction, with the result of FindSpendableOutputs (the
      accumulated value and the selected outputs) passed in. */
  method NewUTXOTransaction(wallet: Wallet, from: Bytes, to: Bytes, amount: int,
                            acc: int, validOutputs: Spendable)
    returns (r: Result<Transaction>)
    ensures from == to ==> r == Err(ExitSelfTransfer)
    ensures from != to && acc < amount ==> r == Err(PanicNotEnoughFunds)
    ensures r.Ok? <==>
      && from != to && acc >= amount
      && Inputs(validOutputs, wallet.PublicKey).Ok?
      && |Base58Decode(to)| >= 5
      && (acc > amount ==> |Base58Decode(from)| >= 5)
    ensures r.Err? && from != to && acc >= amount ==>
      r.failure == if Inputs(validOutputs, wallet.PublicKey).Err? then PanicBadTxid
                   else PanicAddressTooShort
    ensures r.Ok? ==> var tx := r.value;
      && tx.Vin == Inputs(validOutputs, wallet.PublicKey).value
      && tx.ID == Sha256(GobEncode(Transaction([], tx.Vin, tx.Vout)))
      && |tx.Vout| == (if acc > amount then 2 else 1)
      && NewTXOutput(amount, to) == Ok(tx.Vout[0])
      && (acc > amount ==> NewTXOutput(acc - amount, from) == Ok(tx.Vout[1]))
      && SumValues(tx.Vout) == acc
  {
    if from == to {
      return Err(ExitSelfTransfer);
    }
    var inputs: seq<TXInput> := [];
    var outputs: seq<TXOutput> := [];
    if acc < amount {
      return Err(PanicNotEnoughFunds);
    }
    var i := 0;
    while i < |validOutputs|
      invariant 0 <= i <= |validOutputs|
      invariant Inputs(validOutputs[..i], wallet.PublicKey) == Ok(inputs)
    {
      var (txid, outs) := validOutputs[i];
      var decoded := HexDecode(txid);
      assert validOutputs[..i + 1][..i] == validOutputs[..i];
      if decoded.None? {
        InputsPrefixFails(validOutputs, i + 1, wallet.PublicKey);
        return Err(PanicBadTxid);
      }
      var txID := decoded.value;
      ghost var before := inputs;
      var j := 0;
      while j < |outs|
        invariant 0 <= j <= |outs|
        invariant inputs == before + InputsFor(txID, outs[..j], wallet.PublicKey)
      {
        var input := TXInput(txID, outs[j], [], wallet.PublicKey);
        inputs := inputs + [input];
        j := j + 1;
      }
      assert outs[..j] == outs;
      i := i + 1;
    }
    assert validOutputs[..i] == validOutputs;
    var pay := NewTXOutput(amount, to);
    if pay.Err? {
      return Err(pay.failure);
    }
    outputs := outputs + [pay.value];
    if acc > amount {
      var change := NewTXOutput(acc - amount, from);
      if change.Err? {
        return Err(change.failure);
      }
      outputs := outputs + [change.value];
      assert SumValues(outputs) == amount + (acc - amount) by {
        assert outputs == [pay.value, change.value];
        assert outputs[..1] == [pay.value];
        assert [pay.value][..0] == [];
        assert pay.value.Value == amount && change.value.Value == acc - amount;
        assert SumValues([pay.value]) == amount;
        assert SumValues(outputs) == SumValues(outputs[..1]) + change.value.Value;
      }
    }
    assert acc == amount ==> SumValues(outputs) == acc by {
      assert outputs[..0] == [];
    }
    var tx := SetID(Transaction([], inputs, outputs));
    return Ok(tx);
  }

  /** Once a prefix of the selection fails to decode, the whole selection does. */
  lemma {:induction false} InputsPrefixFails(valid: Spendable, n: nat, pubKey: Bytes)
    requires n <= |valid|
    requires Inputs(valid[..n], pubKey).Err?
    ensures Inputs(valid, pubKey) == Err(PanicBadTxid)
  {
    InputsShape(valid[..n], pubKey);
    InputsShape(valid, pubKey);
    var k :| 0 <= k < n && HexDecode(valid[..n][k].0).None?;
    assert valid[..n][k] == valid[k];
  }
}
