/** The on-chain payload layouts (inference/src/ai_payload.rs): each codec is canonical, so
    bytes and payloads determine each other within the length bounds. */
module Payload {
  import opened Bytes
  import opened Words

  const MIN_REQUEST_LEN: nat := 52
  const MAX_REQUEST_LEN: nat := 4096
  const RESPONSE_LEN: nat := 78
  const RESPONSE_V2_LEN: nat := 174
  const MIN_CHALLENGE_LEN: nat := 74
  const MAX_CHALLENGE_LEN: nat := 32768

  datatype Request = Request(modelId: Bytes, maxTokens: nat, reward: nat, priorityFee: nat, prompt: Bytes) {
    predicate Valid() {
      |modelId| == 32 && maxTokens < Pow256(4) && reward < Pow256(8) && priorityFee < Pow256(8)
    }

    function Serialize(): Bytes {
      modelId + Little(4, maxTokens) + Little(8, reward) + Little(8, priorityFee) + prompt
    }
  }

  datatype Responder = Responder(escrowPubkey: Bytes, signature: Bytes)

  datatype Response = Response(requestHash: Bytes, challengeWindowEnd: nat, ipfsCid: Bytes, length: nat,
                               responder: Option<Responder>) {
    predicate Valid() {
      && |requestHash| == 32 && challengeWindowEnd < Pow256(8) && |ipfsCid| == 34 && length < Pow256(4)
      && (responder.Some? ==> |responder.value.escrowPubkey| == 32 && |responder.value.signature| == 64)
    }

    function SignedBytes(): Bytes {
      requestHash + Little(8, challengeWindowEnd) + ipfsCid + Little(4, length)
    }

    function Serialize(): Bytes {
      match responder
      case Some(r) => SignedBytes() + r.escrowPubkey + r.signature
      case None => SignedBytes()
    }
  }

  datatype Challenge = Challenge(responseHash: Bytes, deposit: nat, spkVersion: nat, spk: Bytes, proof: Bytes) {
    predicate Valid() {
      |responseHash| == 32 && deposit < Pow256(8) && spkVersion < Pow256(2) && |spk| == 32
    }

    function Serialize(): Bytes {
      responseHash + Little(8, deposit) + Little(2, spkVersion) + spk + proof
    }
  }

  function DeserializeRequest(data: Bytes): Option<Request> {
    if |data| < MIN_REQUEST_LEN || |data| > MAX_REQUEST_LEN then None
    else Some(Request(data[0..32], LittleValue(data[32..36]), LittleValue(data[36..44]), LittleValue(data[44..52]),
                      data[52..]))
  }

  function DeserializeResponse(data: Bytes): Option<Response> {
    if |data| != RESPONSE_LEN && |data| != RESPONSE_V2_LEN then None
    else
      var responder := if |data| == RESPONSE_V2_LEN then Some(Responder(data[78..110], data[110..174])) else None;
      Some(Response(data[0..32], LittleValue(data[32..40]), data[40..74], LittleValue(data[74..78]), responder))
  }

  function DeserializeChallenge(data: Bytes): Option<Challenge> {
    if |data| < MIN_CHALLENGE_LEN || |data| > MAX_CHALLENGE_LEN then None
    else Some(Challenge(data[0..32], LittleValue(data[32..40]), LittleValue(data[40..42]), data[42..74], data[74..]))
  }

  // -------------------------------------------------------------------- the request

  /** Deserialize takes exactly the lengths in bounds, and what it takes serializes back to
      the same bytes. */
  lemma RequestCanonical(data: Bytes)
    ensures DeserializeRequest(data).Some? <==> MIN_REQUEST_LEN <= |data| <= MAX_REQUEST_LEN
    ensures DeserializeRequest(data).Some? ==>
              DeserializeRequest(data).value.Valid() && DeserializeRequest(data).value.Serialize() == data
  {
    if MIN_REQUEST_LEN <= |data| <= MAX_REQUEST_LEN {
      LittleCanonical(data[32..36]);
      LittleCanonical(data[36..44]);
      LittleCanonical(data[44..52]);
      assert data == data[0..32] + data[32..36] + data[36..44] + data[44..52] + data[52..];
    }
  }

  /** The documented layout: model at 0, tokens at 32, reward at 36, fee at 44, prompt from 52. */
  lemma RequestLayout(p: Request)
    requires p.Valid()
    ensures |p.Serialize()| == MIN_REQUEST_LEN + |p.prompt|
    ensures p.Serialize()[0..32] == p.modelId && LittleValue(p.Serialize()[32..36]) == p.maxTokens
    ensures LittleValue(p.Serialize()[36..44]) == p.reward && LittleValue(p.Serialize()[44..52]) == p.priorityFee
    ensures p.Serialize()[52..] == p.prompt
  {
    var s := p.Serialize();
    assert s[0..32] == p.modelId && s[52..] == p.prompt;
    assert s[32..36] == Little(4, p.maxTokens) && s[36..44] == Little(8, p.reward) && s[44..52] == Little(8, p.priorityFee);
    LittleRoundTrip(4, p.maxTokens);
    LittleRoundTrip(8, p.reward);
    LittleRoundTrip(8, p.priorityFee);
  }

  /** A request survives the round trip exactly when its prompt leaves it within bounds. */
  lemma RequestRoundTrip(p: Request)
    requires p.Valid()
    ensures DeserializeRequest(p.Serialize()) == Some(p) <==> |p.prompt| <= MAX_REQUEST_LEN - MIN_REQUEST_LEN
  {
    RequestLayout(p);
  }

  // ------------------------------------------------------------------- the response

  lemma ResponseCanonical(data: Bytes)
    ensures DeserializeResponse(data).Some? <==> |data| == RESPONSE_LEN || |data| == RESPONSE_V2_LEN
    ensures DeserializeResponse(data).Some? ==>
              DeserializeResponse(data).value.Valid() && DeserializeResponse(data).value.Serialize() == data
  {
    if |data| == RESPONSE_LEN || |data| == RESPONSE_V2_LEN {
      LittleCanonical(data[32..40]);
      LittleCanonical(data[74..78]);
      assert data[..78] == data[0..32] + data[32..40] + data[40..74] + data[74..78];
      if |data| == RESPONSE_V2_LEN {
        assert data == data[..78] + data[78..110] + data[110..174];
      } else {
        assert data == data[..78];
      }
    }
  }

  /** The documented layout: request at 0, window end at 32, content id at 40, length at 74,
      and in the longer version key at 78 and signature at 110. The bytes under the
      signature are the first 78. */
  lemma ResponseLayout(p: Response)
    requires p.Valid()
    ensures |p.Serialize()| == if p.responder.Some? then RESPONSE_V2_LEN else RESPONSE_LEN
    ensures p.Serialize()[..RESPONSE_LEN] == p.SignedBytes()
    ensures p.Serialize()[0..32] == p.requestHash && LittleValue(p.Serialize()[32..40]) == p.challengeWindowEnd
    ensures p.Serialize()[40..74] == p.ipfsCid && LittleValue(p.Serialize()[74..78]) == p.length
    ensures p.responder.Some? ==>
              p.Serialize()[78..110] == p.responder.value.escrowPubkey && p.Serialize()[110..174] == p.responder.value.signature
  {
    var s, m := p.Serialize(), p.SignedBytes();
    assert |m| == 78;
    assert s[..78] == m;
    assert m[0..32] == p.requestHash && m[32..40] == Little(8, p.challengeWindowEnd);
    assert m[40..74] == p.ipfsCid && m[74..78] == Little(4, p.length);
    assert s[0..32] == m[0..32] && s[32..40] == m[32..40] && s[40..74] == m[40..74] && s[74..78] == m[74..78];
    LittleRoundTrip(8, p.challengeWindowEnd);
    LittleRoundTrip(4, p.length);
    if p.responder.Some? {
      assert s[78..110] == p.responder.value.escrowPubkey && s[110..174] == p.responder.value.signature;
    }
  }

  /** Both versions always survive the round trip, so the two can never be mistaken for each
      other. */
  lemma ResponseRoundTrip(p: Response)
    requires p.Valid()
    ensures DeserializeResponse(p.Serialize()) == Some(p)
  {
    ResponseLayout(p);
  }

  /** Dropping or changing the responder never changes the bytes under the signature, and two
      responses with the same signed bytes differ in nothing else. */
  lemma SignedBytesDetermine(p: Response, q: Response)
    requires p.Valid() && q.Valid()
    ensures p.SignedBytes() == q.SignedBytes() <==> p.(responder := None) == q.(responder := None)
  {
    ResponseRoundTrip(p.(responder := None));
    ResponseRoundTrip(q.(responder := None));
  }

  // ------------------------------------------------------------------ the challenge

  lemma ChallengeCanonical(data: Bytes)
    ensures DeserializeChallenge(data).Some? <==> MIN_CHALLENGE_LEN <= |data| <= MAX_CHALLENGE_LEN
    ensures DeserializeChallenge(data).Some? ==>
              DeserializeChallenge(data).value.Valid() && DeserializeChallenge(data).value.Serialize() == data
  {
    if MIN_CHALLENGE_LEN <= |data| <= MAX_CHALLENGE_LEN {
      LittleCanonical(data[32..40]);
      LittleCanonical(data[40..42]);
      assert data == data[0..32] + data[32..40] + data[40..42] + data[42..74] + data[74..];
    }
  }

  /** The documented layout: response at 0, deposit at 32, script version at 40, script at 42,
      proof from 74. */
  lemma ChallengeLayout(p: Challenge)
    requires p.Valid()
    ensures |p.Serialize()| == MIN_CHALLENGE_LEN + |p.proof|
    ensures p.Serialize()[0..32] == p.responseHash && LittleValue(p.Serialize()[32..40]) == p.deposit
    ensures LittleValue(p.Serialize()[40..42]) == p.spkVersion && p.Serialize()[42..74] == p.spk
    ensures p.Serialize()[74..] == p.proof
  {
    var s := p.Serialize();
    assert s[0..32] == p.responseHash && s[42..74] == p.spk && s[74..] == p.proof;
    assert s[32..40] == Little(8, p.deposit) && s[40..42] == Little(2, p.spkVersion);
    LittleRoundTrip(8, p.deposit);
    LittleRoundTrip(2, p.spkVersion);
  }

  lemma ChallengeRoundTrip(p: Challenge)
    requires p.Valid()
    ensures DeserializeChallenge(p.Serialize()) == Some(p) <==> |p.proof| <= MAX_CHALLENGE_LEN - MIN_CHALLENGE_LEN
  {
    ChallengeLayout(p);
  }
}
