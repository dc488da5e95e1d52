/** `Blockchain.prototype.hashBlock` and the `proofOfWork` stub
    (dev/blockchain.js). The SHA-256 library, `Number.prototype.toString` and
    `JSON.stringify` of a block-data object are not modelled: they are the
    function-valued fields of a HashLib. What the language itself fixes is
    modelled: a plain object's `toString()` is "[object Object]",
    `JSON.stringify(undefined)` is `undefined` and concatenates as the text
    "undefined", and `undefined.toString()` throws a TypeError. */
module Hashing {
  import opened Types

  /** The foreign functions hashBlock relies on. */
  datatype HashLib = HashLib(
    sha256: string -> string,
    numberToString: int -> string,
    stringify: BlockData -> string)

  /** What a call to hashBlock produces: a digest, or the TypeError thrown by
      `nonce.toString()` when the nonce slot holds `undefined`. */
  datatype HashResult = Hashed(digest: string) | TypeError

  const ObjectText := "[object Object]"
  const UndefinedText := "undefined"

  /** `nonce.toString()`, or None where it throws. */
  function NonceText(lib: HashLib, nonce: Value): (r: Option<string>)
    ensures r.None? <==> nonce.Undefined?
  {
    match nonce
    case Undefined => None
    case Number(n) => Some(lib.numberToString(n))
    case Record(_) => Some(ObjectText)
  }

  /** The text that `+ JSON.stringify(data)` appends: never a failure, and the
      literal "undefined" when the data slot holds `undefined`. */
  function DataText(lib: HashLib, data: Value): (r: string)
    ensures data.Undefined? ==> r == UndefinedText
    ensures data.Record? ==> r == lib.stringify(data.data)
    ensures data.Number? ==> r == lib.numberToString(data.n) == NonceText(lib, data).value
  {
    match data
    case Undefined => UndefinedText
    case Number(n) => lib.numberToString(n)
    case Record(d) => lib.stringify(d)
  }

  /** `previousBlockHash + nonce.toString() + JSON.stringify(currentBlockData)`:
      the three parts in that order, or None when the nonce slot is undefined. */
  function HashInput(lib: HashLib, previousBlockHash: string, nonce: Value, currentBlockData: Value)
    : (r: Option<string>)
    ensures r.None? <==> nonce.Undefined?
    ensures r.Some? ==>
      previousBlockHash <= r.value &&
      r.value[|previousBlockHash|..] == NonceText(lib, nonce).value + DataText(lib, currentBlockData)
  {
    match NonceText(lib, nonce)
    case None => None
    case Some(t) =>
      var s := previousBlockHash + t + DataText(lib, currentBlockData);
      assert s[|previousBlockHash|..] == t + DataText(lib, currentBlockData);
      Some(s)
  }

  /** hashBlock(previousBlockHash, nonce, currentBlockData). Being a function of
      its arguments and the library, equal arguments give equal digests. */
  function HashBlock(lib: HashLib, previousBlockHash: string, nonce: Value, currentBlockData: Value)
    : (r: HashResult)
    ensures r.TypeError? <==> nonce.Undefined?
    ensures r.Hashed? ==>
      HashInput(lib, previousBlockHash, nonce, currentBlockData).Some? &&
      r.digest == lib.sha256(HashInput(lib, previousBlockHash, nonce, currentBlockData).value)
  {
    match HashInput(lib, previousBlockHash, nonce, currentBlockData)
    case None => TypeError
    case Some(input) => Hashed(lib.sha256(input))
  }

  /** The body of proofOfWork is empty: it searches nothing and returns undefined. */
  function ProofOfWork(): (nonce: Value)
    ensures nonce == Undefined
  {
    Undefined
  }

  /** The call in the /mine handler passes the block data in the nonce slot and
      the nonce in the data slot. With the stub's `undefined` as that nonce the
      hashed text is the previous hash followed by "[object Object]undefined",
      whatever the block data is. */
  lemma SwappedCallIgnoresBlockData(lib: HashLib, previousBlockHash: string, d1: BlockData, d2: BlockData)
    ensures HashBlock(lib, previousBlockHash, Record(d1), ProofOfWork())
         == HashBlock(lib, previousBlockHash, Record(d2), ProofOfWork())
         == Hashed(lib.sha256(previousBlockHash + ObjectText + UndefinedText))
  {
  }

  /** With the arguments in the declared order and an integer nonce, two block
      data objects that serialise differently give different hashed texts. */
  lemma {:induction false} IntendedCallCommitsToBlockData(
    lib: HashLib, previousBlockHash: string, nonce: int, d1: BlockData, d2: BlockData)
    requires lib.stringify(d1) != lib.stringify(d2)
    ensures HashInput(lib, previousBlockHash, Number(nonce), Record(d1))
         != HashInput(lib, previousBlockHash, Number(nonce), Record(d2))
  {
    var prefix := previousBlockHash + lib.numberToString(nonce);
    var s1 := HashInput(lib, previousBlockHash, Number(nonce), Record(d1)).value;
    var s2 := HashInput(lib, previousBlockHash, Number(nonce), Record(d2)).value;
    assert s1 == prefix + lib.stringify(d1);
    assert s2 == prefix + lib.stringify(d2);
    assert s1[|prefix|..] == lib.stringify(d1);
    assert s2[|prefix|..] == lib.stringify(d2);
  }
}
