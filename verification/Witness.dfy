/**
 * witness/app.py: what a checkpoint offered to the witness does. One call is one atomic step.
 *
 * `Cosigned` below is the handler as a function of the tables; `Witness.Cosign` is the handler
 * itself, working step by step on the store, and is proved to do exactly that.
 */
module Witness {
  import opened ByteStrings
  import opened Merkle
  import opened WitnessStore
  import opened Wrappers

  /** What is signed: the log's statement, or the witness's, under different domain tags. */
  datatype Message =
    | CheckpointMessage(statement: Statement)
    | WitnessMessage(signer: string, checkpoint: Statement)

  /** The signature algorithms this build knows. */
  datatype Registry = Registry(has: string -> bool, verify: (string, Bytes, Message, Bytes) -> bool)

  datatype Identity = Identity(name: string, algId: string, publicKey: Bytes)

  datatype Setup = Setup(hasher: Hasher, registry: Registry, identity: Identity)

  /**
   * One POST body, after the decoding the handler does first: None where decoding raises. `drawn` is
   * what the witness's own signing returns for this call, should it come to that.
   */
  datatype Call = Call(
    checkpoint: Json,
    publicKey: Option<Bytes>,
    signature: Option<Bytes>,
    algId: string,
    proof: Option<seq<string>>,
    drawn: Bytes)

  datatype Problem =
    | NotAnObject
    | WrongFields
    | BadOrigin
    | NotAnInteger(field: string)
    | EmptyTree
    | SizeMismatch
    | NotSixtyFour(field: string)
    | NotHex(field: string)
    | BadTimestamp

  datatype Refusal =
    | Malformed(problem: Problem)
    | NotBase64
    | UnknownAlgorithm
    | Violates(kind: Kind)
    | SelfCheckFailed
    | Raised

  datatype Response =
    | Signed(signature: Bytes, treeSize: int, reissued: bool)
    | Refusing(reason: Refusal)

  const STATEMENT_FIELDS: set<string> := {"origin", "tree_size", "root_hash", "head_seq", "head_hash", "timestamp"}

  function HexProblem(value: Json, field: string): Option<Problem> {
    if !value.JString? || |value.text| != 64 then Some(NotSixtyFour(field))
    else if FromHex(value.text).None? then Some(NotHex(field))
    else None
  }

  /** `_valid_statement`: the first thing wrong with a checkpoint, None when nothing is. */
  function StatementProblem(checkpoint: Json): Option<Problem> {
    if !checkpoint.JObject? then Some(NotAnObject)
    else
      var s := checkpoint.fields;
      if s.Keys != STATEMENT_FIELDS then Some(WrongFields)
      else if !s["origin"].JString? || s["origin"].text == "" then Some(BadOrigin)
      else if !s["tree_size"].JInt? then Some(NotAnInteger("tree_size"))
      else if !s["head_seq"].JInt? then Some(NotAnInteger("head_seq"))
      else if s["tree_size"].number < 1 then Some(EmptyTree)
      else if s["tree_size"].number != s["head_seq"].number + 1 then Some(SizeMismatch)
      else if HexProblem(s["root_hash"], "root_hash").Some? then HexProblem(s["root_hash"], "root_hash")
      else if HexProblem(s["head_hash"], "head_hash").Some? then HexProblem(s["head_hash"], "head_hash")
      else if !s["timestamp"].JString? then Some(BadTimestamp)
      else None
  }

  predicate ValidStatement(s: Statement) {
    StatementProblem(JObject(s)).None?
  }

  function Origin(s: Statement): string
    requires ValidStatement(s)
  {
    s["origin"].text
  }

  function TreeSize(s: Statement): (n: int)
    requires ValidStatement(s)
    ensures n >= 1
  {
    s["tree_size"].number
  }

  function RootText(s: Statement): (t: string)
    requires ValidStatement(s)
    ensures |t| == 64 && FromHex(t).Some?
  {
    s["root_hash"].text
  }

  /** `[bytes.fromhex(h) for h in proof]`; None when one of them raises. */
  function ProofBytes(texts: seq<string>): Option<seq<Bytes>> {
    if texts == [] then Some([])
    else
      match (FromHex(texts[0]), ProofBytes(texts[1..]))
      case (Some(first), Some(rest)) => Some([first] + rest)
      case _ => None
  }

  function OfferedProof(call: Call): Option<seq<Bytes>> {
    if call.proof.None? then None else ProofBytes(call.proof.value)
  }

  // ---------------------------------------------------------------- the decision, as a function

  /** Step 4: sign, check the signature, record. */
  function Signing(w: Setup, t: Tables, s: Statement, drawn: Bytes): (Tables, Response)
    requires ValidStatement(s)
  {
    if !w.registry.verify(w.identity.algId, w.identity.publicKey, WitnessMessage(w.identity.name, s), drawn) then
      (t, Refusing(SelfCheckFailed))
    else
      (Recorded(t, Origin(s), TreeSize(s), RootText(s), s, drawn), Signed(drawn, TreeSize(s), false))
  }

  function Violating(t: Tables, s: Statement, kind: Kind): (Tables, Response)
    requires ValidStatement(s)
  {
    (Refused(t, Origin(s), kind, s), Refusing(Violates(kind)))
  }

  /** Steps 3 and 4: monotonicity, consistency, then the signature. */
  function Extending(w: Setup, t: Tables, s: Statement, call: Call): (Tables, Response)
    requires ValidStatement(s)
  {
    match Latest(t.checkpoints, Origin(s))
    case None => Signing(w, t, s, call.drawn)
    case Some(latest) =>
      if TreeSize(s) < latest.treeSize then Violating(t, s, Shrank)
      else if TreeSize(s) == latest.treeSize && latest.rootHash != RootText(s) then Violating(t, s, Fork)
      else if TreeSize(s) == latest.treeSize && latest.statement == s then
        (t, Signed(latest.cosignature, TreeSize(s), true))
      else if OfferedProof(call).None? || FromHex(latest.rootHash).None? then (t, Refusing(Raised))
      else if !Consistent(w.hasher, latest.treeSize, FromHex(latest.rootHash).value,
                          TreeSize(s), FromHex(RootText(s)).value, OfferedProof(call).value) then
        Violating(t, s, Inconsistent)
      else Signing(w, t, s, call.drawn)
  }

  /** `cosign`, as a function of the tables and the call. */
  function Cosigned(w: Setup, t: Tables, call: Call): (Tables, Response) {
    if StatementProblem(call.checkpoint).Some? then
      (t, Refusing(Malformed(StatementProblem(call.checkpoint).value)))
    else
      var s := call.checkpoint.fields;
      if call.publicKey.None? || call.signature.None? then (t, Refusing(NotBase64))
      else if !w.registry.has(call.algId) then (t, Refusing(UnknownAlgorithm))
      else if Origin(s) in t.origins && t.origins[Origin(s)].publicKey != call.publicKey.value then
        Violating(t, s, KeyChanged)
      else
        var t' := Pinned(t, Origin(s), call.algId, call.publicKey.value);
        if !w.registry.verify(call.algId, call.publicKey.value, CheckpointMessage(s), call.signature.value) then
          Violating(t', s, BadSignature)
        else Extending(w, t', s, call)
  }

  // ---------------------------------------------------------------- the service

  /** The answer to `/state`: the origin's high-water mark and the key pinned for it. */
  datatype StateAnswer = StateAnswer(treeSize: Option<int>, rootHash: Option<string>, logKey: Option<Bytes>)

  function StateOf(t: Tables, origin: string): StateAnswer {
    var latest := if origin == "" then None else Latest(t.checkpoints, origin);
    StateAnswer(
      if latest.Some? then Some(latest.value.treeSize) else None,
      if latest.Some? then Some(latest.value.rootHash) else None,
      if origin != "" && origin in t.origins then Some(t.origins[origin].publicKey) else None)
  }

  class Witness {
    const setup: Setup
    const store: Store

    constructor (setup: Setup, store: Store)
      ensures this.setup == setup && this.store == store
    {
      this.setup := setup;
      this.store := store;
    }

    method State(origin: string) returns (answer: StateAnswer)
      ensures answer == StateOf(store.View(), origin)
    {
      var latest, pinned: Option<Pin> := None, None;
      if origin != "" {
        latest := store.LatestRow(origin);
        pinned := store.KnownLog(origin);
      }
      answer := StateAnswer(
        if latest.Some? then Some(latest.value.treeSize) else None,
        if latest.Some? then Some(latest.value.rootHash) else None,
        if pinned.Some? then Some(pinned.value.publicKey) else None);
    }

    method Cosign(call: Call) returns (response: Response)
      modifies store
      ensures (store.View(), response) == Cosigned(setup, old(store.View()), call)
    {
      var problem := StatementProblem(call.checkpoint);
      if problem.Some? { return Refusing(Malformed(problem.value)); }
      var s := call.checkpoint.fields;
      var origin, treeSize, rootHash := s["origin"].text, s["tree_size"].number, s["root_hash"].text;
      if call.publicKey.None? || call.signature.None? { return Refusing(NotBase64); }
      var key, algId := call.publicKey.value, call.algId;
      if !setup.registry.has(algId) { return Refusing(UnknownAlgorithm); }

      // 1. Identity.
      var pinned := store.KnownLog(origin);
      if pinned.None? {
        store.PinLog(origin, algId, key);
      } else if pinned.value.publicKey != key {
        store.RecordViolation(origin, KeyChanged, s);
        return Refusing(Violates(KeyChanged));
      }
      assert store.View() == Pinned(old(store.View()), origin, algId, key);

      // 2. Authenticity.
      if !setup.registry.verify(algId, key, CheckpointMessage(s), call.signature.value) {
        store.RecordViolation(origin, BadSignature, s);
        return Refusing(Violates(BadSignature));
      }

      // 3. Monotonicity and consistency.
      var latest := store.LatestRow(origin);
      if latest.Some? {
        var oldSize := latest.value.treeSize;
        if treeSize < oldSize {
          store.RecordViolation(origin, Shrank, s);
          return Refusing(Violates(Shrank));
        }
        if treeSize == oldSize {
          if latest.value.rootHash != rootHash {
            store.RecordViolation(origin, Fork, s);
            return Refusing(Violates(Fork));
          }
          if latest.value.statement == s {
            return Signed(latest.value.cosignature, treeSize, true);
          }
        }
        var proof, oldRoot := OfferedProof(call), FromHex(latest.value.rootHash);
        if proof.None? || oldRoot.None? { return Refusing(Raised); }
        var ok := VerifyConsistency(setup.hasher, oldSize, oldRoot.value, treeSize, FromHex(rootHash).value, proof.value);
        if !ok {
          store.RecordViolation(origin, Inconsistent, s);
          return Refusing(Violates(Inconsistent));
        }
      }

      // 4. Co-sign, and verify after signing.
      var identity := setup.identity;
      if !setup.registry.verify(identity.algId, identity.publicKey, WitnessMessage(identity.name, s), call.drawn) {
        return Refusing(SelfCheckFailed);
      }
      store.Record(origin, treeSize, rootHash, s, call.drawn);
      response := Signed(call.drawn, treeSize, false);
    }
  }
}
