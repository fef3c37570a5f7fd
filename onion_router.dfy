/**
 * One onion router: it peels one layer off each incoming message and
 * forwards what is left to the port named inside that layer.
 *
 * A layer is a 344-character base64 RSA block that holds the layer's
 * symmetric key, followed by that key's AES ciphertext. The plaintext is
 * a 10-character decimal next hop followed by the remainder. The pieces of
 * `webcrypto` that do the decrypting are opaque here. Each one is a total
 * function that may fail (`None`), which stands for a rejected promise.
 *
 * The router's diagnostic state is three variables that each successful
 * peel overwrites, plus a `lastMessageSource` that nothing ever writes.
 */
module OnionRouter {
  import opened Wrappers
  import opened JsString

  /** The size of the RSA modulus of every router key (2048 bits). */
  const RsaModulusBits := 2048

  /** `message.slice(0, 344)`: the characters of the RSA block. */
  const RsaBlockChars := 344

  /** `decryptedMess.slice(0, 10)`: the characters of the next-hop field. */
  const HopFieldChars := 10

  /** The largest port a `http://localhost:<port>` URL accepts. */
  const MaxPort := 65535

  /**
   * The length of the padded base64 encoding of `n` bytes (section 4 of
   * RFC 4648): the fewest whole 4-character groups whose 3-byte capacity
   * covers the input.
   */
  function Base64Length(n: nat): (r: nat)
    ensures r % 4 == 0
    ensures 3 * (r / 4) >= n
    ensures r == 0 || 3 * (r / 4 - 1) < n
  {
    4 * ((n + 2) / 3)
  }

  /** 344 is the base64 length of one block of a 2048-bit RSA modulus (256 bytes). */
  lemma SplitPointIsOneRsaBlock()
    ensures Base64Length(RsaModulusBits / 8) == RsaBlockChars
  {
  }

  /** `rsaDecrypt(_, privKey)` under this router's fixed private key. */
  type RsaDecrypt = string -> Option<string>

  /** `symDecrypt(strKey, ciphertext)`. */
  type SymDecrypt = (string, string) -> Option<string>

  // ---------------------------------------------------------------------
  // The peel step

  /** The result of peeling one layer: the parsed next hop and the rest. */
  datatype Peeled = Peeled(nextHop: JsNumber, remainder: string)

  /** The layer's plaintext, or `None` when either decryption fails. */
  function DecryptLayer(message: string, rsaDecrypt: RsaDecrypt, symDecrypt: SymDecrypt): (r: Option<string>)
    ensures r.Some? <==>
              && rsaDecrypt(SliceTo(message, RsaBlockChars)).Some?
              && symDecrypt(rsaDecrypt(SliceTo(message, RsaBlockChars)).value, SliceFrom(message, RsaBlockChars)).Some?
    ensures r.Some? ==>
              r.value == symDecrypt(rsaDecrypt(SliceTo(message, RsaBlockChars)).value, SliceFrom(message, RsaBlockChars)).value
  {
    var rsaBlock, symBlock := SliceTo(message, RsaBlockChars), SliceFrom(message, RsaBlockChars);
    match rsaDecrypt(rsaBlock)
    case None => None
    case Some(decryp) => symDecrypt(decryp, symBlock)
  }

  /** Split a plaintext into its next-hop field, parsed, and the remainder. */
  function SplitPlaintext(plaintext: string): Peeled
  {
    Peeled(ParseInt10(SliceTo(plaintext, HopFieldChars)), SliceFrom(plaintext, HopFieldChars))
  }

  function Peel(message: string, rsaDecrypt: RsaDecrypt, symDecrypt: SymDecrypt): Option<Peeled>
  {
    match DecryptLayer(message, rsaDecrypt, symDecrypt)
    case None => None
    case Some(plaintext) => Some(SplitPlaintext(plaintext))
  }

  /** The incoming message is exactly the RSA block followed by the symmetric block. */
  lemma LayerSplits(message: string)
    ensures |SliceTo(message, RsaBlockChars)| == Min(RsaBlockChars, |message|)
    ensures SliceTo(message, RsaBlockChars) + SliceFrom(message, RsaBlockChars) == message
  {
  }

  /**
   * A hop field of ten decimal digits is read as its base-10 value, leading
   * zeros ignored, and the remainder is everything after it.
   */
  lemma PeelDigitHop(hop: string, rest: string)
    requires |hop| == HopFieldChars && AllDigits(hop)
    ensures SplitPlaintext(hop + rest) == Peeled(Finite(DecimalValue(hop)), rest)
  {
    assert SliceTo(hop + rest, HopFieldChars) == hop;
    ParseInt10AllDigits(hop);
  }

  /** A plaintext written as a zero-padded 10-digit port and a body peels back to both. */
  lemma PeelPaddedHop(port: nat, rest: string)
    requires port < Pow10(HopFieldChars)
    ensures SplitPlaintext(PaddedDecimal(port, HopFieldChars) + rest) == Peeled(Finite(port), rest)
  {
    PeelDigitHop(PaddedDecimal(port, HopFieldChars), rest);
    DecimalValuePadded(port, HopFieldChars);
  }

  /** The hop field "0000003001" names port 3001. */
  lemma PeelLeadingZerosExample(rest: string)
    ensures SplitPlaintext("0000003001" + rest) == Peeled(Finite(3001), rest)
  {
    assert PaddedDecimal(3001, HopFieldChars) == "0000003001";
    PeelPaddedHop(3001, rest);
  }

  /**
   * The plaintext is its hop field followed by the remainder, so the
   * remainder is ten characters shorter (empty when the plaintext is shorter
   * than the hop field).
   */
  lemma PlaintextSplits(plaintext: string)
    ensures SliceTo(plaintext, HopFieldChars) + SplitPlaintext(plaintext).remainder == plaintext
    ensures |SplitPlaintext(plaintext).remainder| == if |plaintext| <= HopFieldChars then 0 else |plaintext| - HopFieldChars
  {
  }

  // ---------------------------------------------------------------------
  // The `/message` handler as a state transition

  /** The router's diagnostic variables; `None` is JavaScript's `null`. */
  datatype Observation = Observation(
    lastReceivedEncryptedMessage: Option<string>,
    lastReceivedDecryptedMessage: Option<string>,
    lastMessageDestination: Option<JsNumber>,
    lastMessageSource: Option<JsNumber>)

  const InitialObservation := Observation(None, None, None, None)

  /** `POST http://localhost:<port>/message` with `{message: body}`. */
  datatype ForwardRequest = ForwardRequest(port: int, body: string)

  /**
   * What `/message` does after the state writes. `Rejected`: a decryption
   * failed and the handler threw first. `InvalidHop`: the hop is NaN or
   * out of the URL port range, so `fetch` throws on the URL. `Forwarded`:
   * the request is sent.
   */
  datatype Outcome = Rejected | InvalidHop | Forwarded(request: ForwardRequest)

  /** Where the peeled remainder is sent, if the hop makes a valid URL. */
  function Forward(p: Peeled): Outcome
  {
    if p.nextHop.Finite? && 0 <= p.nextHop.value <= MaxPort
    then Forwarded(ForwardRequest(p.nextHop.value, p.remainder))
    else InvalidHop
  }

  datatype HandleStep = HandleStep(observation: Observation, outcome: Outcome)

  /** One `/message` request, handled atomically. */
  function HandleMessage(obs: Observation, message: string, rsaDecrypt: RsaDecrypt, symDecrypt: SymDecrypt): HandleStep
  {
    match Peel(message, rsaDecrypt, symDecrypt)
    case None => HandleStep(obs, Rejected)
    case Some(p) =>
      HandleStep(Observation(Some(message), Some(p.remainder), Some(p.nextHop), obs.lastMessageSource), Forward(p))
  }

  /** The handler rejects exactly when a decryption fails, and then changes nothing. */
  lemma HandleMessageRejects(obs: Observation, message: string, rsaDecrypt: RsaDecrypt, symDecrypt: SymDecrypt)
    ensures var step := HandleMessage(obs, message, rsaDecrypt, symDecrypt);
            step.outcome.Rejected? <==> DecryptLayer(message, rsaDecrypt, symDecrypt).None?
    ensures var step := HandleMessage(obs, message, rsaDecrypt, symDecrypt);
            step.outcome.Rejected? ==> step.observation == obs
  {
  }

  /**
   * Once both decryptions succeed, the handler records the incoming message,
   * the plaintext after its hop field, and the parsed hop, whatever was
   * recorded before. `lastMessageSource` is not written.
   */
  lemma HandleMessageRecords(obs: Observation, message: string, rsaDecrypt: RsaDecrypt, symDecrypt: SymDecrypt)
    ensures var step := HandleMessage(obs, message, rsaDecrypt, symDecrypt);
            var layer := DecryptLayer(message, rsaDecrypt, symDecrypt);
            layer.Some? ==>
              step.observation == Observation(Some(message), Some(SliceFrom(layer.value, HopFieldChars)),
                                                Some(ParseInt10(SliceTo(layer.value, HopFieldChars))), obs.lastMessageSource)
  {
  }

  /**
   * A forward carries exactly the recorded remainder, to the recorded hop
   * used as a port, and only when that hop is a valid port.
   */
  lemma HandleMessageForwards(obs: Observation, message: string, rsaDecrypt: RsaDecrypt, symDecrypt: SymDecrypt)
    ensures var step := HandleMessage(obs, message, rsaDecrypt, symDecrypt);
            step.outcome.Forwarded? ==>
              && step.observation.lastReceivedDecryptedMessage == Some(step.outcome.request.body)
              && step.observation.lastMessageDestination == Some(Finite(step.outcome.request.port))
              && 0 <= step.outcome.request.port <= MaxPort
    ensures var step := HandleMessage(obs, message, rsaDecrypt, symDecrypt);
            var hop := step.observation.lastMessageDestination;
            (step.outcome.InvalidHop? <==>
               !step.outcome.Rejected? && hop.Some? && !(hop.value.Finite? && 0 <= hop.value.value <= MaxPort))
  {
  }

  /**
   * A layer whose plaintext is "0000003001hello", arriving at a fresh
   * router: the router records it and forwards "hello" to port 3001.
   */
  lemma HandleMessageExample(message: string, key: string)
    ensures var rsaDecrypt: RsaDecrypt := block => Some(key);
            var symDecrypt: SymDecrypt := (k, ciphertext) => Some("0000003001hello");
            HandleMessage(InitialObservation, message, rsaDecrypt, symDecrypt) ==
              HandleStep(Observation(Some(message), Some("hello"), Some(Finite(3001)), None),
                         Forwarded(ForwardRequest(3001, "hello")))
  {
    var rsaDecrypt: RsaDecrypt := block => Some(key);
    var symDecrypt: SymDecrypt := (k, ciphertext) => Some("0000003001hello");
    assert DecryptLayer(message, rsaDecrypt, symDecrypt) == Some("0000003001hello");
    assert "0000003001hello" == "0000003001" + "hello";
    PeelLeadingZerosExample("hello");
    assert Peel(message, rsaDecrypt, symDecrypt) == Some(Peeled(Finite(3001), "hello"));
  }

  /** The state after handling `messages` in order. */
  function Replay(obs: Observation, messages: seq<string>, rsaDecrypt: RsaDecrypt, symDecrypt: SymDecrypt): Observation
  {
    if messages == [] then obs
    else
      var before := Replay(obs, messages[..|messages| - 1], rsaDecrypt, symDecrypt);
      HandleMessage(before, messages[|messages| - 1], rsaDecrypt, symDecrypt).observation
  }

  /** The last message of `messages` that peels, with what it peels to. */
  function LastPeeled(messages: seq<string>, rsaDecrypt: RsaDecrypt, symDecrypt: SymDecrypt): Option<(string, Peeled)>
  {
    if messages == [] then None
    else
      var m := messages[|messages| - 1];
      match Peel(m, rsaDecrypt, symDecrypt)
      case Some(p) => Some((m, p))
      case None => LastPeeled(messages[..|messages| - 1], rsaDecrypt, symDecrypt)
  }

  /**
   * The state after any sequence of messages reflects only the latest one
   * that peeled (or the starting state if none did), and the never-written
   * `lastMessageSource` keeps its starting value.
   */
  lemma {:induction false} ReplayReflectsLatest(obs: Observation, messages: seq<string>, rsaDecrypt: RsaDecrypt, symDecrypt: SymDecrypt)
    ensures Replay(obs, messages, rsaDecrypt, symDecrypt) ==
              match LastPeeled(messages, rsaDecrypt, symDecrypt)
              case None => obs
              case Some((m, p)) => Observation(Some(m), Some(p.remainder), Some(p.nextHop), obs.lastMessageSource)
  {
    if messages != [] {
      ReplayReflectsLatest(obs, messages[..|messages| - 1], rsaDecrypt, symDecrypt);
    }
  }

  /** From the initial state `lastMessageSource` stays `null` forever. */
  lemma SourceStaysNull(messages: seq<string>, rsaDecrypt: RsaDecrypt, symDecrypt: SymDecrypt)
    ensures Replay(InitialObservation, messages, rsaDecrypt, symDecrypt).lastMessageSource == None
  {
    ReplayReflectsLatest(InitialObservation, messages, rsaDecrypt, symDecrypt);
  }

  // ---------------------------------------------------------------------
  // The router process

  /** One `simpleOnionRouter(nodeId)` instance and its closure-held state. */
  class SimpleOnionRouter {
    const nodeId: int
    const rsaDecrypt: RsaDecrypt
    const symDecrypt: SymDecrypt

    var lastReceivedDecryptedMessage: Option<string>
    var lastReceivedEncryptedMessage: Option<string>
    var lastMessageSource: Option<JsNumber>
    var lastMessageDestination: Option<JsNumber>

    ghost function Observed(): Observation
      reads this
    {
      Observation(lastReceivedEncryptedMessage, lastReceivedDecryptedMessage, lastMessageDestination, lastMessageSource)
    }

    /** All four variables start `null`; the key pair is fixed for the router's lifetime. */
    constructor (nodeId: int, rsaDecrypt: RsaDecrypt, symDecrypt: SymDecrypt)
      ensures this.nodeId == nodeId && this.rsaDecrypt == rsaDecrypt && this.symDecrypt == symDecrypt
      ensures Observed() == InitialObservation
    {
      this.nodeId := nodeId;
      this.rsaDecrypt := rsaDecrypt;
      this.symDecrypt := symDecrypt;
      lastReceivedDecryptedMessage := None;
      lastReceivedEncryptedMessage := None;
      lastMessageSource := None;
      lastMessageDestination := None;
    }

    /**
     * `/message`: decrypt both blocks, split the plaintext, overwrite the
     * three diagnostic variables, and hand back the forward to make. Both
     * decryptions run before the first write.
     */
    method ReceiveMessage(message: string) returns (outcome: Outcome)
      modifies this
      ensures Observed() == HandleMessage(old(Observed()), message, rsaDecrypt, symDecrypt).observation
      ensures outcome == HandleMessage(old(Observed()), message, rsaDecrypt, symDecrypt).outcome
    {
      var decryptedMess := DecryptLayer(message, rsaDecrypt, symDecrypt);
      if decryptedMess.None? {
        return Rejected;
      }
      var peeled := SplitPlaintext(decryptedMess.value);
      assert Peel(message, rsaDecrypt, symDecrypt) == Some(peeled);

      lastReceivedEncryptedMessage := Some(message);
      lastReceivedDecryptedMessage := Some(peeled.remainder);
      lastMessageDestination := Some(peeled.nextHop);

      outcome := Forward(peeled);
    }

    /** `/getLastReceivedEncryptedMessage`. */
    method GetLastReceivedEncryptedMessage() returns (result: Option<string>)
      ensures result == lastReceivedEncryptedMessage
    {
      result := lastReceivedEncryptedMessage;
    }

    /** `/getLastReceivedDecryptedMessage`. */
    method GetLastReceivedDecryptedMessage() returns (result: Option<string>)
      ensures result == lastReceivedDecryptedMessage
    {
      result := lastReceivedDecryptedMessage;
    }

    /** `/getLastMessageDestination`. */
    method GetLastMessageDestination() returns (result: Option<JsNumber>)
      ensures result == lastMessageDestination
    {
      result := lastMessageDestination;
    }
  }
}
