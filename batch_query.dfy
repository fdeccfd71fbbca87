/** `handleContractQuery` and `handleTxQuery` of the query page, up to the
    state update: each normalises its input, walks the identifiers in order and
    appends exactly one entry per identifier to a freshly built list. */
module BatchQuery {
  import opened JsValues
  import opened Normalizer

  const InvalidAddressNotice := "Please enter a valid contract address."
  const NoCode := "0x"
  const NoContractText := "No contract found."
  const BytecodeErrorPrefix := "Error fetching bytecode: "

  const InvalidHashNotice := "Please enter a valid transaction hash."
  const NoReceiptText := "Transaction receipt not found."
  const ReceiptErrorPrefix := "Error fetching transaction receipt: "

  /** One element of a result list as the page builds it: a bare notice
      string for a falsy identifier, or an object keyed by the identifier
      (`{address, bytecode}` or `{hash, receipt}`). */
  datatype Entry<+P> = Notice(text: string) | Record(key: JsValue, field: P)

  /** The `receipt` field of a transaction entry: the receipt object itself,
      or a text in its place. */
  datatype ReceiptField<+R> = Receipt(receipt: R) | ReceiptText(text: string)

  /** The four ways one lookup can end, told apart by a tag: no call for an
      empty identifier, data found, an explicit absence, or a failed call. */
  datatype Status<+D> = Invalid | Found(data: D) | NotFound | Failed(message: string)

  // ---------------------------------------------------------------------------
  // Bytecode lookups

  /** What one address contributes to `newBytecodes`. */
  function ContractEntryOf(address: JsValue, getCode: JsValue -> Outcome<string>): (e: Entry<string>)
    ensures e.Notice? <==> Falsy(address)
    ensures e.Notice? ==> e.text == InvalidAddressNotice
    ensures e.Record? ==> e.key == address
  {
    if Falsy(address) then Notice(InvalidAddressNotice)
    else match getCode(address)
      case Ok(code) => Record(address, if code == NoCode then NoContractText else code)
      case Err(message) => Record(address, BytecodeErrorPrefix + message)
  }

  /** The outcome of looking up one address, in tagged form. */
  function ContractStatus(address: JsValue, getCode: JsValue -> Outcome<string>): Status<string> {
    if Falsy(address) then Invalid
    else match getCode(address)
      case Ok(code) => if code == NoCode then NotFound else Found(code)
      case Err(message) => Failed(message)
  }

  /** Reads the tagged outcome back from an untagged bytecode entry. */
  function ReadContract(e: Entry<string>): Status<string> {
    match e
    case Notice(_) => Invalid
    case Record(_, b) =>
      if b == NoContractText then NotFound
      else if BytecodeErrorPrefix <= b then Failed(b[|BytecodeErrorPrefix|..])
      else Found(b)
  }

  /** A hex data string as a JSON-RPC node returns it. */
  predicate HexPrefixed(s: string) {
    |s| >= 2 && s[0] == '0' && s[1] == 'x'
  }

  /** When the node answers with hex data, as `getCode` does, the entry the
      page shows determines the outcome: `'0x'` reads as not found, an error as
      a failure with its message, and any other code as found, verbatim. */
  lemma ContractEntryReadsBack(address: JsValue, getCode: JsValue -> Outcome<string>)
    requires getCode(address).Ok? ==> HexPrefixed(getCode(address).value)
    ensures ReadContract(ContractEntryOf(address, getCode)) == ContractStatus(address, getCode)
  {
    if !Falsy(address) {
      match getCode(address)
      case Ok(code) =>
        if code != NoCode {
          assert code[0] != NoContractText[0];
          assert code[0] != BytecodeErrorPrefix[0];
        }
      case Err(message) =>
        var b := BytecodeErrorPrefix + message;
        assert b[0] != NoContractText[0];
        assert b[|BytecodeErrorPrefix|..] == message;
    }
  }

  /** Without that, the page's output is ambiguous: a code that happens to
      read "No contract found." shows exactly as a missing contract. */
  lemma ContractEntryAmbiguous(address: JsValue, getCode: JsValue -> Outcome<string>)
    requires !Falsy(address) && getCode(address) == Ok(NoContractText)
    ensures ContractStatus(address, getCode) == Found(NoContractText)
    ensures ReadContract(ContractEntryOf(address, getCode)) == NotFound
  {
  }

  /** The loop of `handleContractQuery`: one entry per address, in order, the
      entry at each position made from the address at that position and the
      node's answer for it alone, and `queried` the addresses passed to
      `getCode`, in call order. */
  method ContractBatch(addresses: seq<JsValue>, getCode: JsValue -> Outcome<string>)
    returns (bytecodes: seq<Entry<string>>, queried: seq<JsValue>)
    ensures |bytecodes| == |addresses|
    ensures forall i :: 0 <= i < |addresses| ==> bytecodes[i] == ContractEntryOf(addresses[i], getCode)
    ensures queried == Queried(addresses)
    ensures RecordKeys(bytecodes) == queried
  {
    bytecodes, queried := [], [];
    for n := 0 to |addresses|
      invariant |bytecodes| == n
      invariant forall i :: 0 <= i < n ==> bytecodes[i] == ContractEntryOf(addresses[i], getCode)
      invariant queried == Queried(addresses[..n])
    {
      var address := addresses[n];
      assert addresses[..n + 1][..n] == addresses[..n];
      if Falsy(address) {
        bytecodes := bytecodes + [Notice(InvalidAddressNotice)];
        continue;
      }
      var code := getCode(address);
      queried := queried + [address];
      match code {
        case Ok(c) =>
          if c == NoCode {
            bytecodes := bytecodes + [Record(address, NoContractText)];
          } else {
            bytecodes := bytecodes + [Record(address, c)];
          }
        case Err(message) =>
          bytecodes := bytecodes + [Record(address, BytecodeErrorPrefix + message)];
      }
    }
    assert addresses[..|addresses|] == addresses;
    RecordsMatchCalls(addresses, bytecodes);
  }

  /** `handleContractQuery` up to `setBytecodes`: the input text is
      normalised and every resulting address looked up in turn. */
  method HandleContractQuery(contractInput: string, parsed: ParseOutcome,
                             getCode: JsValue -> Outcome<string>)
    returns (bytecodes: seq<Entry<string>>, queried: seq<JsValue>)
    ensures var addresses := ParseInput(contractInput, parsed);
            |bytecodes| == |addresses|
            && (forall i :: 0 <= i < |addresses| ==>
                  bytecodes[i] == ContractEntryOf(addresses[i], getCode))
            && queried == Queried(addresses)
    ensures RecordKeys(bytecodes) == queried
  {
    var addresses := ParseInput(contractInput, parsed);
    bytecodes, queried := ContractBatch(addresses, getCode);
  }

  // ---------------------------------------------------------------------------
  // Receipt lookups

  /** What one hash contributes to `newTxDetails`; a `null` receipt is falsy. */
  function TxEntryOf<R>(hash: JsValue, getReceipt: JsValue -> Outcome<Option<R>>): (e: Entry<ReceiptField<R>>)
    ensures e.Notice? <==> Falsy(hash)
    ensures e.Notice? ==> e.text == InvalidHashNotice
    ensures e.Record? ==> e.key == hash
  {
    if Falsy(hash) then Notice(InvalidHashNotice)
    else match getReceipt(hash)
      case Ok(Some(receipt)) => Record(hash, Receipt(receipt))
      case Ok(None) => Record(hash, ReceiptText(NoReceiptText))
      case Err(message) => Record(hash, ReceiptText(ReceiptErrorPrefix + message))
  }

  /** The outcome of looking up one hash, in tagged form. */
  function TxStatus<R>(hash: JsValue, getReceipt: JsValue -> Outcome<Option<R>>): Status<R> {
    if Falsy(hash) then Invalid
    else match getReceipt(hash)
      case Ok(Some(receipt)) => Found(receipt)
      case Ok(None) => NotFound
      case Err(message) => Failed(message)
  }

  /** Reads the tagged outcome back from an untagged transaction entry. */
  function ReadTx<R>(e: Entry<ReceiptField<R>>): Status<R> {
    match e
    case Notice(_) => Invalid
    case Record(_, Receipt(receipt)) => Found(receipt)
    case Record(_, ReceiptText(t)) =>
      if t == NoReceiptText then NotFound
      else if ReceiptErrorPrefix <= t then Failed(t[|ReceiptErrorPrefix|..])
      else Failed(t)
  }

  /** A transaction entry always determines the outcome: a receipt is an
      object, never a text, and the not-found text is not an error text. */
  lemma TxEntryReadsBack<R>(hash: JsValue, getReceipt: JsValue -> Outcome<Option<R>>)
    ensures ReadTx(TxEntryOf(hash, getReceipt)) == TxStatus(hash, getReceipt)
  {
    if !Falsy(hash) && getReceipt(hash).Err? {
      var t := ReceiptErrorPrefix + getReceipt(hash).message;
      assert t[0] != NoReceiptText[0];
      assert t[|ReceiptErrorPrefix|..] == getReceipt(hash).message;
    }
  }

  /** The loop of `handleTxQuery`: one entry per hash, in order, each made
      from its own hash and the node's answer for it, and `queried` the hashes
      passed to `getTransactionReceipt`, in call order. */
  method TxBatch<R>(hashes: seq<JsValue>, getReceipt: JsValue -> Outcome<Option<R>>)
    returns (txDetails: seq<Entry<ReceiptField<R>>>, queried: seq<JsValue>)
    ensures |txDetails| == |hashes|
    ensures forall i :: 0 <= i < |hashes| ==> txDetails[i] == TxEntryOf(hashes[i], getReceipt)
    ensures queried == Queried(hashes)
    ensures RecordKeys(txDetails) == queried
  {
    txDetails, queried := [], [];
    for n := 0 to |hashes|
      invariant |txDetails| == n
      invariant forall i :: 0 <= i < n ==> txDetails[i] == TxEntryOf(hashes[i], getReceipt)
      invariant queried == Queried(hashes[..n])
    {
      var hash := hashes[n];
      assert hashes[..n + 1][..n] == hashes[..n];
      if Falsy(hash) {
        txDetails := txDetails + [Notice(InvalidHashNotice)];
        continue;
      }
      var receipt := getReceipt(hash);
      queried := queried + [hash];
      match receipt {
        case Ok(Some(r)) =>
          txDetails := txDetails + [Record(hash, Receipt(r))];
        case Ok(None) =>
          txDetails := txDetails + [Record(hash, ReceiptText(NoReceiptText))];
        case Err(message) =>
          txDetails := txDetails + [Record(hash, ReceiptText(ReceiptErrorPrefix + message))];
      }
    }
    assert hashes[..|hashes|] == hashes;
    RecordsMatchCalls(hashes, txDetails);
  }

  /** `handleTxQuery` up to `setTxDetails`: the input text is normalised and
      every resulting hash looked up in turn. */
  method HandleTxQuery<R>(txHashInput: string, parsed: ParseOutcome,
                          getReceipt: JsValue -> Outcome<Option<R>>)
    returns (txDetails: seq<Entry<ReceiptField<R>>>, queried: seq<JsValue>)
    ensures var hashes := ParseInput(txHashInput, parsed);
            |txDetails| == |hashes|
            && (forall i :: 0 <= i < |hashes| ==>
                  txDetails[i] == TxEntryOf(hashes[i], getReceipt))
            && queried == Queried(hashes)
    ensures RecordKeys(txDetails) == queried
  {
    var hashes := ParseInput(txHashInput, parsed);
    txDetails, queried := TxBatch(hashes, getReceipt);
  }

  // ---------------------------------------------------------------------------
  // Remote calls

  /** The identifiers a loop passes to the node, in order: the truthy ones,
      duplicates included. */
  function Queried(ids: seq<JsValue>): (calls: seq<JsValue>)
    ensures |calls| <= |ids|
    ensures forall k :: 0 <= k < |calls| ==> !Falsy(calls[k])
  {
    if ids == [] then []
    else
      var last := ids[|ids| - 1];
      Queried(ids[..|ids| - 1]) + (if Falsy(last) then [] else [last])
  }

  /** How many times `x` occurs in `ids`. */
  function Occurrences(ids: seq<JsValue>, x: JsValue): nat {
    if ids == [] then 0
    else Occurrences(ids[..|ids| - 1], x) + (if ids[|ids| - 1] == x then 1 else 0)
  }

  lemma OccurrencesSnoc(ids: seq<JsValue>, y: JsValue, x: JsValue)
    ensures Occurrences(ids + [y], x) == Occurrences(ids, x) + (if y == x then 1 else 0)
  {
    assert (ids + [y])[..|ids|] == ids;
  }

  /** Every truthy identifier is sent to the node once per occurrence, so
      duplicates are looked up independently; a falsy one is never sent. */
  lemma {:induction false} CallsPerIdentifier(ids: seq<JsValue>, x: JsValue)
    ensures Occurrences(Queried(ids), x) == if Falsy(x) then 0 else Occurrences(ids, x)
  {
    if ids != [] {
      var init, last := ids[..|ids| - 1], ids[|ids| - 1];
      CallsPerIdentifier(init, x);
      assert ids == init + [last];
      OccurrencesSnoc(init, last, x);
      if Falsy(last) {
        assert Queried(ids) == Queried(init);
        assert last == x ==> Falsy(x);
      } else {
        assert Queried(ids) == Queried(init) + [last];
        OccurrencesSnoc(Queried(init), last, x);
      }
    }
  }

  /** The keys of the records in a result list, in order; notices have none. */
  function RecordKeys<P>(entries: seq<Entry<P>>): seq<JsValue> {
    if entries == [] then []
    else
      var last := entries[|entries| - 1];
      RecordKeys(entries[..|entries| - 1]) + (if last.Notice? then [] else [last.key])
  }

  /** In a list where each position holds a notice exactly when its
      identifier is falsy, and otherwise a record keyed by that identifier,
      the records correspond one to one, in order, to the calls made: each
      call yields exactly one record and no record exists without a call. */
  lemma {:induction false} RecordsMatchCalls<P>(ids: seq<JsValue>, entries: seq<Entry<P>>)
    requires |entries| == |ids|
    requires forall i :: 0 <= i < |ids| ==> (entries[i].Notice? <==> Falsy(ids[i]))
    requires forall i :: 0 <= i < |ids| ==> entries[i].Record? ==> entries[i].key == ids[i]
    ensures RecordKeys(entries) == Queried(ids)
  {
    if ids != [] {
      var n := |ids| - 1;
      RecordsMatchCalls(ids[..n], entries[..n]);
    }
  }
}
