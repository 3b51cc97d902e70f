/**
 * The other side of the witness: what it answers an honest log whose syncs run as
 * checkpoint_service.sync_witness does, two requests each, among anyone's calls; how a stranger can
 * lock the log out; and a run in which the promise in WitnessRuns fails.
 */
module WitnessHonest {
  import opened ByteStrings
  import opened Bits
  import opened Merkle
  import opened MerkleProofs
  import opened WitnessStore
  import opened Witness
  import opened WitnessRuns
  import opened Wrappers

  datatype Log = Log(origin: string, algId: string, publicKey: Bytes)

  /** The checkpoint one sync offers, with its signature and what the witness's own signing returns for it. */
  datatype Sync = Sync(size: nat, headHash: string, timestamp: string, signature: Bytes, drawn: Bytes)

  /**
   * What reaches the witness next. A sync is two requests with anything in between: `Ask` is its
   * GET of `/state`, `Offer` its POST to `/cosign`, with the place of its own `Ask` among the events.
   */
  datatype Event =
    | Ask
    | Offer(asked: nat, sync: Sync)
    | Foreign(call: Call)

  function HexTexts(hashes: seq<Bytes>): seq<string> {
    if hashes == [] then [] else [ToHex(hashes[0])] + HexTexts(hashes[1..])
  }

  lemma {:induction false} HexTextsRoundTrip(hashes: seq<Bytes>)
    ensures ProofBytes(HexTexts(hashes)) == Some(hashes)
  {
    if hashes != [] {
      HexTextsRoundTrip(hashes[1..]);
      HexRoundTrip(hashes[0]);
      assert HexTexts(hashes)[1..] == HexTexts(hashes[1..]);
      assert hashes == [hashes[0]] + hashes[1..];
    }
  }

  /** `checkpoint_statement` over the first `size` entries of the ledger. */
  function StatementFor(w: Setup, log: Log, ledger: seq<Digest>, s: Sync): Statement
    requires 1 <= s.size <= |ledger|
  {
    map["origin" := JString(log.origin), "tree_size" := JInt(s.size),
        "root_hash" := JString(ToHex(MerkleRoot(w.hasher, ledger[..s.size]))),
        "head_seq" := JInt(s.size - 1), "head_hash" := JString(s.headHash), "timestamp" := JString(s.timestamp)]
  }

  /** What a sync proves with: the proof from the size `/state` reported, none when it cannot be made. */
  function ProofFrom(w: Setup, ledger: seq<Digest>, size: nat, known: Option<int>): seq<Digest>
    requires size <= |ledger|
  {
    if known.Some? && 0 < known.value <= size then ConsistencyProof(w.hasher, ledger[..size], known.value).value else []
  }

  /** The POST of a sync to which `/state` had reported the size `known`. */
  function SyncCall(w: Setup, log: Log, ledger: seq<Digest>, known: Option<int>, s: Sync): Call
    requires 1 <= s.size <= |ledger|
  {
    Call(JObject(StatementFor(w, log, ledger, s)), Some(log.publicKey), Some(s.signature), log.algId,
         Some(HexTexts(ProofFrom(w, ledger, s.size, known))), s.drawn)
  }

  /** A checkpoint of this ledger, as the log itself makes them. */
  ghost predicate OfLedger(w: Setup, ledger: seq<Digest>, s: Statement) {
    && ValidStatement(s) && TreeSize(s) <= |ledger|
    && RootText(s) == ToHex(MerkleRoot(w.hasher, ledger[..TreeSize(s)]))
  }

  /** A call under the log's name and key, whose signature verifies. */
  ghost predicate Authentic(w: Setup, log: Log, call: Call) {
    && call.checkpoint.JObject? && ValidStatement(call.checkpoint.fields) && Origin(call.checkpoint.fields) == log.origin
    && call.publicKey == Some(log.publicKey) && call.signature.Some?
    && SignedBy(w, log.publicKey, call.checkpoint.fields, call.algId, call.signature.value)
  }

  /** A call that would pin another key for the log's name, were none pinned. */
  ghost predicate OtherKey(w: Setup, log: Log, call: Call) {
    && call.checkpoint.JObject? && ValidStatement(call.checkpoint.fields) && Origin(call.checkpoint.fields) == log.origin
    && call.publicKey.Some? && call.publicKey.value != log.publicKey
    && call.signature.Some? && w.registry.has(call.algId)
  }

  /**
   * What anybody may send: whatever they like, replays of the log's own signed checkpoints
   * included. Only two things are beyond them: the log's key on a statement that is not of its
   * ledger, and reaching the witness under the log's name, with another key, before the name is pinned.
   */
  ghost predicate Allowed(w: Setup, t: Tables, log: Log, ledger: seq<Digest>, call: Call) {
    && (Authentic(w, log, call) ==> OfLedger(w, ledger, call.checkpoint.fields))
    && (OtherKey(w, log, call) ==> log.origin in t.origins)
  }

  /** A sync of any prefix of the ledger, with signatures of the log and of the witness that verify. */
  ghost predicate Genuine(w: Setup, log: Log, ledger: seq<Digest>, s: Sync) {
    && 1 <= s.size <= |ledger| && |s.headHash| == 64 && FromHex(s.headHash).Some?
    && SignedBy(w, log.publicKey, StatementFor(w, log, ledger, s), log.algId, s.signature)
    && CosignatureVerifies(w, StatementFor(w, log, ledger, s), s.drawn)
  }

  // ---------------------------------------------------------------- runs of requests

  /** Each offer comes after its own ask and is of a prefix of the ledger. */
  predicate Placed(ledger: seq<Digest>, events: seq<Event>) {
    forall i :: 0 <= i < |events| && events[i].Offer? ==>
      && events[i].asked < i && events[events[i].asked].Ask?
      && 1 <= events[i].sync.size <= |ledger|
  }

  /** The tables after the events. */
  ghost function After(w: Setup, t: Tables, log: Log, ledger: seq<Digest>, events: seq<Event>): Tables
    requires Placed(ledger, events)
    decreases |events|
  {
    if events == [] then t
    else
      var n := |events| - 1;
      var before := After(w, t, log, ledger, events[..n]);
      if events[n].Ask? then before else Cosigned(w, before, CallAt(w, t, log, ledger, events, n)).0
  }

  /** The size that was reported to the offer at i. */
  ghost function KnownAt(w: Setup, t: Tables, log: Log, ledger: seq<Digest>, events: seq<Event>, i: nat): Option<int>
    requires Placed(ledger, events) && i < |events| && events[i].Offer?
    decreases i, 0
  {
    StateOf(After(w, t, log, ledger, events[..events[i].asked]), log.origin).treeSize
  }

  /** The call that arrives at i. */
  ghost function CallAt(w: Setup, t: Tables, log: Log, ledger: seq<Digest>, events: seq<Event>, i: nat): Call
    requires Placed(ledger, events) && i < |events| && !events[i].Ask?
    decreases i, 1
  {
    match events[i]
    case Offer(_, sync) => SyncCall(w, log, ledger, KnownAt(w, t, log, ledger, events, i), sync)
    case Foreign(call) => call
  }

  /** What the call at i is answered. */
  ghost function AnswerAt(w: Setup, t: Tables, log: Log, ledger: seq<Digest>, events: seq<Event>, i: nat): Response
    requires Placed(ledger, events) && i < |events| && !events[i].Ask?
  {
    Cosigned(w, After(w, t, log, ledger, events[..i]), CallAt(w, t, log, ledger, events, i)).1
  }

  /** The log only appends and keeps one key; the others send what they may. Nothing is asked of the order. */
  ghost predicate Honest(w: Setup, t: Tables, log: Log, ledger: seq<Digest>, events: seq<Event>) {
    && Placed(ledger, events)
    && forall i :: 0 <= i < |events| ==>
         match events[i]
         case Ask => true
         case Offer(_, sync) => Genuine(w, log, ledger, sync)
         case Foreign(call) => Allowed(w, After(w, t, log, ledger, events[..i]), log, ledger, call)
  }

  /** No call between the offer and its ask was signed anew for the log. */
  ghost predicate Undisturbed(w: Setup, t: Tables, log: Log, ledger: seq<Digest>, events: seq<Event>, i: nat)
    requires Placed(ledger, events) && i < |events| && events[i].Offer?
  {
    forall j :: events[i].asked < j < i && !events[j].Ask? ==>
      !SignsFor(w, After(w, t, log, ledger, events[..j]), CallAt(w, t, log, ledger, events, j), log.origin)
  }

  // ---------------------------------------------------------------- what the witness holds stays the log's

  ghost predicate HonestRow(w: Setup, ledger: seq<Digest>, r: Row) {
    && 1 <= r.treeSize <= |ledger|
    && r.rootHash == ToHex(MerkleRoot(w.hasher, ledger[..r.treeSize]))
  }

  /** What the witness holds for the origin is the honest log's. */
  ghost predicate HonestTables(w: Setup, t: Tables, log: Log, ledger: seq<Digest>) {
    && log.origin != ""
    && Numbered(t.checkpoints)
    && (log.origin in t.origins ==> t.origins[log.origin].publicKey == log.publicKey)
    && (forall r :: r in t.checkpoints && r.origin == log.origin ==> HonestRow(w, ledger, r))
  }

  lemma StatementIsValid(w: Setup, log: Log, ledger: seq<Digest>, s: Sync)
    requires log.origin != "" && 1 <= s.size <= |ledger|
    requires |s.headHash| == 64 && FromHex(s.headHash).Some?
    ensures var statement := StatementFor(w, log, ledger, s);
            && ValidStatement(statement) && Origin(statement) == log.origin && TreeSize(statement) == s.size
            && RootText(statement) == ToHex(MerkleRoot(w.hasher, ledger[..s.size]))
            && FromHex(RootText(statement)) == Some(MerkleRoot(w.hasher, ledger[..s.size]))
  {
    hide MerkleRoot;
    HexRoundTrip(MerkleRoot(w.hasher, ledger[..s.size]));
    var statement := StatementFor(w, log, ledger, s);
    assert statement.Keys == STATEMENT_FIELDS;
    assert HexProblem(statement["root_hash"], "root_hash").None?;
    assert HexProblem(statement["head_hash"], "head_hash").None?;
  }

  /** No call anyone may send pins another key for the log. */
  lemma PinStaysHonest(w: Setup, t: Tables, log: Log, ledger: seq<Digest>, call: Call)
    requires log.origin in t.origins ==> t.origins[log.origin].publicKey == log.publicKey
    requires Allowed(w, t, log, ledger, call)
    ensures var t' := Cosigned(w, t, call).0;
            log.origin in t'.origins ==> t'.origins[log.origin].publicKey == log.publicKey
  {
    hide Authentic, OfLedger, Latest, Consistent, FromHex, OfferedProof;
  }

  /** A call that is signed for the log carries a checkpoint of the log's own. */
  lemma SignedIsAuthentic(w: Setup, t: Tables, log: Log, ledger: seq<Digest>, call: Call)
    requires log.origin in t.origins ==> t.origins[log.origin].publicKey == log.publicKey
    requires Allowed(w, t, log, ledger, call) && SignsFor(w, t, call, log.origin)
    ensures Authentic(w, log, call) && OfLedger(w, ledger, call.checkpoint.fields)
  {
    NewSignature(w, t, call);
    PinStaysHonest(w, t, log, ledger, call);
  }

  /** Whatever anyone sends, what the witness holds for the log stays the log's own. */
  lemma AllowedKeepsHonest(w: Setup, t: Tables, log: Log, ledger: seq<Digest>, call: Call)
    requires HonestTables(w, t, log, ledger) && Allowed(w, t, log, ledger, call)
    ensures var t' := Cosigned(w, t, call).0;
            && HonestTables(w, t', log, ledger)
            && (forall r :: r in t'.checkpoints && r !in t.checkpoints && r.origin == log.origin ==>
                  r.statement == call.checkpoint.fields && Authentic(w, log, call))
  {
    var (t', response) := Cosigned(w, t, call);
    CallEffect(w, t, call);
    PinStaysHonest(w, t, log, ledger, call);
    if SignsFor(w, t, call, log.origin) { SignedIsAuthentic(w, t, log, ledger, call); }
    forall i | 0 <= i < |t'.checkpoints| ensures t'.checkpoints[i].id == i + 1 {
      if i < |t.checkpoints| { assert t'.checkpoints[i] == t.checkpoints[i]; }
    }
    hide Cosigned, Allowed, HonestRow;
    forall r | r in t'.checkpoints && r.origin == log.origin ensures HonestRow(w, ledger, r) {
      if r !in t.checkpoints { NewRowIsHonest(w, ledger, call.checkpoint.fields, r); }
    }
  }

  lemma NewRowIsHonest(w: Setup, ledger: seq<Digest>, s: Statement, r: Row)
    requires OfLedger(w, ledger, s) && r.treeSize == TreeSize(s) && r.rootHash == RootText(s)
    ensures HonestRow(w, ledger, r)
  {
  }

  /** A sync of the log, first sent or replayed, is among the things anyone may send, whatever had been reported to it. */
  lemma SyncIsAllowed(w: Setup, t: Tables, log: Log, ledger: seq<Digest>, known: Option<int>, s: Sync)
    requires log.origin != "" && 1 <= s.size <= |ledger| && |s.headHash| == 64 && FromHex(s.headHash).Some?
    ensures Allowed(w, t, log, ledger, SyncCall(w, log, ledger, known, s))
  {
    StatementIsValid(w, log, ledger, s);
  }

  /** What arrives depends only on what arrived before. */
  lemma CallAtPrefix(w: Setup, t: Tables, log: Log, ledger: seq<Digest>, events: seq<Event>, n: nat, i: nat)
    requires Placed(ledger, events) && i < n <= |events| && !events[i].Ask?
    ensures Placed(ledger, events[..n])
    ensures CallAt(w, t, log, ledger, events[..n], i) == CallAt(w, t, log, ledger, events, i)
  {
    assert events[..n][i] == events[i];
    if events[i].Offer? {
      var asked := events[i].asked;
      assert events[..n][..asked] == events[..asked];
    }
  }

  /** One event more. */
  lemma AfterStep(w: Setup, t: Tables, log: Log, ledger: seq<Digest>, events: seq<Event>, n: nat)
    requires Placed(ledger, events) && n < |events|
    ensures var before, after := After(w, t, log, ledger, events[..n]), After(w, t, log, ledger, events[..n + 1]);
            after == if events[n].Ask? then before else Cosigned(w, before, CallAt(w, t, log, ledger, events, n)).0
  {
    hide Cosigned, CallAt;
    assert events[..n + 1][..n] == events[..n];
    if !events[n].Ask? { CallAtPrefix(w, t, log, ledger, events, n + 1, n); }
  }

  /** At every moment of every run what the witness holds for the log is the log's own. */
  lemma {:induction false} RunKeepsHonest(w: Setup, t: Tables, log: Log, ledger: seq<Digest>, events: seq<Event>, n: nat)
    requires HonestTables(w, t, log, ledger) && Honest(w, t, log, ledger, events) && n <= |events|
    ensures HonestTables(w, After(w, t, log, ledger, events[..n]), log, ledger)
  {
    if n > 0 {
      hide Cosigned, HonestTables, Allowed, StatementFor, SignedBy, After, FromHex, ProofFrom, KnownAt;
      RunKeepsHonest(w, t, log, ledger, events, n - 1);
      AfterStep(w, t, log, ledger, events, n - 1);
      var before := After(w, t, log, ledger, events[..n - 1]);
      match events[n - 1]
      case Ask =>
      case Offer(_, sync) =>
        OriginIsNamed(w, before, log, ledger);
        SyncIsAllowed(w, before, log, ledger, KnownAt(w, t, log, ledger, events, n - 1), sync);
        AllowedKeepsHonest(w, before, log, ledger, CallAt(w, t, log, ledger, events, n - 1));
      case Foreign(call) =>
        AllowedKeepsHonest(w, before, log, ledger, call);
    } else {
      assert events[..0] == [];
    }
  }

  lemma OriginIsNamed(w: Setup, t: Tables, log: Log, ledger: seq<Digest>)
    requires HonestTables(w, t, log, ledger)
    ensures log.origin != ""
  {
  }

  // ---------------------------------------------------------------- how an offer is answered

  /** A genuine sync passes the identity and authenticity steps. */
  lemma SyncIsExtending(w: Setup, t: Tables, log: Log, ledger: seq<Digest>, known: Option<int>, s: Sync)
    requires HonestTables(w, t, log, ledger) && Genuine(w, log, ledger, s)
    ensures var call, statement := SyncCall(w, log, ledger, known, s), StatementFor(w, log, ledger, s);
            && ValidStatement(statement)
            && Cosigned(w, t, call) == Extending(w, Pinned(t, log.origin, log.algId, log.publicKey), statement, call)
  {
    hide MerkleRoot, FromHex, ToHex, StatementFor, HexTexts, ProofFrom, Extending;
    StatementIsValid(w, log, ledger, s);
  }

  /** The witness's high-water mark is the root of a prefix of the ledger. */
  lemma MarkIsHonest(w: Setup, t: Tables, log: Log, ledger: seq<Digest>)
    requires HonestTables(w, t, log, ledger) && Latest(t.checkpoints, log.origin).Some?
    ensures var latest := Latest(t.checkpoints, log.origin).value;
            && HonestRow(w, ledger, latest)
            && FromHex(latest.rootHash) == Some(MerkleRoot(w.hasher, ledger[..latest.treeSize]))
  {
    hide MerkleRoot, FromHex, ToHex;
    LatestIsFirst(t.checkpoints, log.origin);
    var latest := Latest(t.checkpoints, log.origin).value;
    HexRoundTrip(MerkleRoot(w.hasher, ledger[..latest.treeSize]));
  }

  /** The test a sync's proof is put to at the witness's high-water mark. */
  ghost predicate ProofFits(w: Setup, ledger: seq<Digest>, size: nat, mark: int, known: Option<int>)
    requires 1 <= mark <= size <= |ledger|
  {
    Consistent(w.hasher, mark, MerkleRoot(w.hasher, ledger[..mark]), size, MerkleRoot(w.hasher, ledger[..size]),
               ProofFrom(w, ledger, size, known))
  }

  /**
   * All a sync can be answered, whatever size had been reported to it: shrank, exactly below the mark;
   * the old signature again, for the very statement of the mark; otherwise a signature or inconsistent,
   * as its proof fits the mark. Never a fork, another key, a bad signature or an error.
   */
  lemma SyncAnswers(w: Setup, t: Tables, log: Log, ledger: seq<Digest>, known: Option<int>, s: Sync)
    requires HonestTables(w, t, log, ledger) && Genuine(w, log, ledger, s)
    ensures var response := Cosigned(w, t, SyncCall(w, log, ledger, known, s)).1;
            var latest := Latest(t.checkpoints, log.origin);
            if latest.None? then response == Signed(s.drawn, s.size, false)
            else
              var mark := latest.value.treeSize;
              && mark >= 1
              && if s.size < mark then response == Refusing(Violates(Shrank))
                 else if s.size == mark && latest.value.statement == StatementFor(w, log, ledger, s) then
                   response == Signed(latest.value.cosignature, s.size, true)
                 else if ProofFits(w, ledger, s.size, mark, known) then response == Signed(s.drawn, s.size, false)
                 else response == Refusing(Violates(Inconsistent))
  {
    hide Consistent, MerkleRoot, FromHex, ToHex, StatementFor, Cosigned, StatementProblem, HexTexts, ProofFrom;
    var call := SyncCall(w, log, ledger, known, s);
    StatementIsValid(w, log, ledger, s);
    SyncIsExtending(w, t, log, ledger, known, s);
    HexTextsRoundTrip(ProofFrom(w, ledger, s.size, known));
    if Latest(t.checkpoints, log.origin).Some? { MarkIsHonest(w, t, log, ledger); }
  }

  /** The proof from the mark itself always fits. */
  lemma ProofFromMarkFits(w: Setup, ledger: seq<Digest>, size: nat, mark: int)
    requires 1 <= mark <= size <= |ledger|
    ensures ProofFits(w, ledger, size, mark, Some(mark))
  {
    hide Consistent, ConsistencyProof, MerkleRoot;
    ConsistencyComplete(w.hasher, ledger[..size], mark);
    assert ledger[..size][..mark] == ledger[..mark];
  }

  /** What the tree and the check of the proof hash. */
  ghost function ProofInputs(w: Setup, ledger: seq<Digest>, size: nat, mark: int, known: Option<int>): set<Bytes>
    requires 1 <= mark <= size <= |ledger|
  {
    TreeInputs(w.hasher, ledger[..size], 0, size)
    + HashedBy(w.hasher, mark, MerkleRoot(w.hasher, ledger[..mark]), size, ProofFrom(w, ledger, size, known))
  }

  /** And any other proof a sync can send fits exactly when it is that one. */
  lemma ProofFitsExactly(w: Setup, ledger: seq<Digest>, size: nat, mark: int, known: Option<int>)
    requires 1 <= mark <= size <= |ledger|
    requires NoCollision(w.hasher, ProofInputs(w, ledger, size, mark, known))
    ensures ProofFits(w, ledger, size, mark, known)
            <==> ProofFrom(w, ledger, size, known) == ProofFrom(w, ledger, size, Some(mark))
  {
    hide Consistent, ConsistencyProof, MerkleRoot, TreeInputs, HashedBy;
    ProofFromMarkFits(w, ledger, size, mark);
    var proof, root := ProofFrom(w, ledger, size, known), MerkleRoot(w.hasher, ledger[..mark]);
    if ProofFits(w, ledger, size, mark, known) {
      if mark < size { SentSeedIsDigest(mark, root, proof, w.hasher, size, MerkleRoot(w.hasher, ledger[..size])); }
      ConsistencySound(w.hasher, ledger[..size], mark, root, proof);
    }
  }

  /** Every node a sync sends is a digest, and so is the root it is checked against. */
  lemma SentSeedIsDigest(mark: nat, root: Digest, proof: seq<Digest>, h: Hasher, size: nat, newRoot: Bytes)
    requires 0 < mark < size && Consistent(h, mark, root, size, newRoot, proof)
    ensures SeedIsDigest(mark, root, proof)
  {
    hide Reached, IsPowerOfTwo;
  }

  /**
   * Exactly which syncs are signed, whatever size had been reported: the first ever, the very statement
   * of the mark, and those from whose reported size the proof is the one from the mark.
   */
  lemma SyncIsSignedExactly(w: Setup, t: Tables, log: Log, ledger: seq<Digest>, known: Option<int>, s: Sync)
    requires HonestTables(w, t, log, ledger) && Genuine(w, log, ledger, s)
    requires var latest := Latest(t.checkpoints, log.origin);
             latest.Some? && 1 <= latest.value.treeSize <= s.size ==>
               NoCollision(w.hasher, ProofInputs(w, ledger, s.size, latest.value.treeSize, known))
    ensures var latest := Latest(t.checkpoints, log.origin);
            Cosigned(w, t, SyncCall(w, log, ledger, known, s)).1.Signed?
            <==> || latest.None?
                 || (latest.value.treeSize == s.size && latest.value.statement == StatementFor(w, log, ledger, s))
                 || (latest.value.treeSize <= s.size
                     && ProofFrom(w, ledger, s.size, known) == ProofFrom(w, ledger, s.size, Some(latest.value.treeSize)))
  {
    hide Cosigned, StatementFor, ProofFrom, ProofFits, ProofInputs, SyncCall;
    SyncAnswers(w, t, log, ledger, known, s);
    var latest := Latest(t.checkpoints, log.origin);
    if latest.Some? && latest.value.treeSize <= s.size {
      ProofFitsExactly(w, ledger, s.size, latest.value.treeSize, known);
    }
  }

  /** A sync to which the size was reported that is still the mark: refused exactly when it is smaller, as shrank. */
  lemma SyncIsSigned(w: Setup, t: Tables, log: Log, ledger: seq<Digest>, s: Sync)
    requires HonestTables(w, t, log, ledger) && Genuine(w, log, ledger, s)
    ensures var known := StateOf(t, log.origin).treeSize;
            var response := Cosigned(w, t, SyncCall(w, log, ledger, known, s)).1;
            if known.Some? && s.size < known.value then response == Refusing(Violates(Shrank))
            else response.Signed? && response.treeSize == s.size
  {
    hide Cosigned, StatementFor, ProofFrom, ProofFits, SyncCall;
    SyncAnswers(w, t, log, ledger, StateOf(t, log.origin).treeSize, s);
    var latest := Latest(t.checkpoints, log.origin);
    if latest.Some? && latest.value.treeSize <= s.size {
      ProofFromMarkFits(w, ledger, s.size, latest.value.treeSize);
    }
  }

  // ---------------------------------------------------------------- how the offers of a run are answered

  /** Only a call signed for the origin moves its mark. */
  lemma MarkStays(w: Setup, t: Tables, call: Call, origin: string)
    requires !SignsFor(w, t, call, origin)
    ensures Latest(Cosigned(w, t, call).0.checkpoints, origin) == Latest(t.checkpoints, origin)
  {
    CallEffect(w, t, call);
    var t' := Cosigned(w, t, call).0;
    hide Cosigned;
    if t'.checkpoints != t.checkpoints {
      assert t'.checkpoints[..|t'.checkpoints| - 1] == t.checkpoints;
    }
  }

  lemma {:induction false} MarkStaysBetween(w: Setup, t: Tables, log: Log, ledger: seq<Digest>, events: seq<Event>,
                                            n: nat, m: nat)
    requires Placed(ledger, events) && n <= m <= |events|
    requires forall j :: n <= j < m && !events[j].Ask? ==>
               !SignsFor(w, After(w, t, log, ledger, events[..j]), CallAt(w, t, log, ledger, events, j), log.origin)
    ensures Latest(After(w, t, log, ledger, events[..m]).checkpoints, log.origin)
            == Latest(After(w, t, log, ledger, events[..n]).checkpoints, log.origin)
    decreases m
  {
    if n < m {
      hide Cosigned, SignsFor, CallAt, After;
      MarkStaysBetween(w, t, log, ledger, events, n, m - 1);
      AfterStep(w, t, log, ledger, events, m - 1);
      if !events[m - 1].Ask? {
        MarkStays(w, After(w, t, log, ledger, events[..m - 1]), CallAt(w, t, log, ledger, events, m - 1), log.origin);
      }
    }
  }

  /**
   * An append-only log that keeps one key, its syncs overlapping one another and anyone's calls: an
   * offer since whose ask nothing was signed for the log is refused exactly when it is smaller than the
   * size reported to it, and then as shrank.
   */
  lemma {:induction false} AppendOnlyIsNeverRefused(w: Setup, t: Tables, log: Log, ledger: seq<Digest>,
                                                    events: seq<Event>, i: nat)
    requires HonestTables(w, t, log, ledger) && Honest(w, t, log, ledger, events)
    requires i < |events| && events[i].Offer? && Undisturbed(w, t, log, ledger, events, i)
    ensures var known, size := KnownAt(w, t, log, ledger, events, i), events[i].sync.size;
            var response := AnswerAt(w, t, log, ledger, events, i);
            if known.Some? && size < known.value then response == Refusing(Violates(Shrank))
            else response.Signed? && response.treeSize == size
  {
    hide Cosigned, After, HonestTables, SignsFor, Genuine, SyncCall, Allowed;
    RunKeepsHonest(w, t, log, ledger, events, i);
    var asked := events[i].asked;
    AfterStep(w, t, log, ledger, events, asked);
    MarkStaysBetween(w, t, log, ledger, events, asked + 1, i);
    SyncIsSigned(w, After(w, t, log, ledger, events[..i]), log, ledger, events[i].sync);
  }

  /** From the empty store on. */
  lemma HonestLogIsNeverRefused(w: Setup, log: Log, ledger: seq<Digest>, events: seq<Event>, i: nat)
    requires log.origin != "" && Honest(w, EMPTY_TABLES, log, ledger, events)
    requires i < |events| && events[i].Offer? && Undisturbed(w, EMPTY_TABLES, log, ledger, events, i)
    ensures var known, size := KnownAt(w, EMPTY_TABLES, log, ledger, events, i), events[i].sync.size;
            var response := AnswerAt(w, EMPTY_TABLES, log, ledger, events, i);
            if known.Some? && size < known.value then response == Refusing(Violates(Shrank))
            else response.Signed? && response.treeSize == size
  {
    hide After, Undisturbed, Honest, AnswerAt, KnownAt;
    AppendOnlyIsNeverRefused(w, EMPTY_TABLES, log, ledger, events, i);
  }

  /** Every offer of every such run, disturbed or not: signed exactly when the mark it meets lets it. */
  lemma OfferIsSignedExactly(w: Setup, t: Tables, log: Log, ledger: seq<Digest>, events: seq<Event>, i: nat)
    requires HonestTables(w, t, log, ledger) && Honest(w, t, log, ledger, events)
    requires i < |events| && events[i].Offer?
    requires var latest := Latest(After(w, t, log, ledger, events[..i]).checkpoints, log.origin);
             latest.Some? && 1 <= latest.value.treeSize <= events[i].sync.size ==>
               NoCollision(w.hasher, ProofInputs(w, ledger, events[i].sync.size, latest.value.treeSize,
                                                 KnownAt(w, t, log, ledger, events, i)))
    ensures var known, s := KnownAt(w, t, log, ledger, events, i), events[i].sync;
            var latest := Latest(After(w, t, log, ledger, events[..i]).checkpoints, log.origin);
            var response := AnswerAt(w, t, log, ledger, events, i);
            && (response.Signed?
                <==> || latest.None?
                     || (latest.value.treeSize == s.size && latest.value.statement == StatementFor(w, log, ledger, s))
                     || (latest.value.treeSize <= s.size
                         && ProofFrom(w, ledger, s.size, known) == ProofFrom(w, ledger, s.size, Some(latest.value.treeSize))))
            && (response == Refusing(Violates(Shrank)) <==> latest.Some? && s.size < latest.value.treeSize)
            && (response.Signed? || response == Refusing(Violates(Shrank)) || response == Refusing(Violates(Inconsistent)))
  {
    hide Cosigned, After, HonestTables, Genuine, SyncCall, Allowed, StatementFor, ProofFrom, ProofFits, ProofInputs, KnownAt;
    RunKeepsHonest(w, t, log, ledger, events, i);
    var before, known := After(w, t, log, ledger, events[..i]), KnownAt(w, t, log, ledger, events, i);
    SyncAnswers(w, before, log, ledger, known, events[i].sync);
    SyncIsSignedExactly(w, before, log, ledger, known, events[i].sync);
  }

  /** No proof at all fits a smaller mark. */
  lemma NothingDoesNotFit(w: Setup, ledger: seq<Digest>, size: nat, mark: int)
    requires 1 <= mark < size <= |ledger|
    ensures !ProofFits(w, ledger, size, mark, None)
  {
    hide Reached, IsPowerOfTwo, MerkleRoot;
  }

  /** Two syncs that were both told of no mark, at the tables. */
  lemma SecondIsRefused(w: Setup, log: Log, ledger: seq<Digest>, first: Sync, second: Sync)
    requires log.origin != "" && Genuine(w, log, ledger, first) && Genuine(w, log, ledger, second)
    requires first.size != second.size
    ensures var (t, response) := Cosigned(w, EMPTY_TABLES, SyncCall(w, log, ledger, None, first));
            var (t', response') := Cosigned(w, t, SyncCall(w, log, ledger, None, second));
            var kind := if second.size < first.size then Shrank else Inconsistent;
            && response.Signed? && response' == Refusing(Violates(kind))
            && t'.violations == [Violation(log.origin, kind, StatementFor(w, log, ledger, second))]
  {
    hide Cosigned, StatementFor, ProofFrom, ProofFits, FromHex, MerkleRoot, Allowed;
    var call, call' := SyncCall(w, log, ledger, None, first), SyncCall(w, log, ledger, None, second);
    var t := Cosigned(w, EMPTY_TABLES, call).0;
    StatementIsValid(w, log, ledger, first);
    StatementIsValid(w, log, ledger, second);
    SyncAnswers(w, EMPTY_TABLES, log, ledger, None, first);
    CallEffect(w, EMPTY_TABLES, call);
    SyncIsAllowed(w, EMPTY_TABLES, log, ledger, None, first);
    AllowedKeepsHonest(w, EMPTY_TABLES, log, ledger, call);
    assert t.checkpoints[..0] == [];
    assert Latest(t.checkpoints, log.origin) == Some(t.checkpoints[0]);
    SyncAnswers(w, t, log, ledger, None, second);
    if first.size < second.size { NothingDoesNotFit(w, ledger, second.size, first.size); }
    CallEffect(w, t, call');
  }

  /**
   * Why an offer must be undisturbed: any two syncs of different sizes that both asked before either
   * offered, on an empty store. The second to arrive is refused, and a violation recorded against the
   * log: shrank when it is the smaller, inconsistent when it is the larger.
   */
  lemma OverlappingSyncs(w: Setup, log: Log, ledger: seq<Digest>, first: Sync, second: Sync)
    requires log.origin != "" && Genuine(w, log, ledger, first) && Genuine(w, log, ledger, second)
    requires first.size != second.size
    ensures var events := [Ask, Ask, Offer(0, first), Offer(1, second)];
            var kind := if second.size < first.size then Shrank else Inconsistent;
            && Honest(w, EMPTY_TABLES, log, ledger, events)
            && AnswerAt(w, EMPTY_TABLES, log, ledger, events, 2).Signed?
            && AnswerAt(w, EMPTY_TABLES, log, ledger, events, 3) == Refusing(Violates(kind))
            && After(w, EMPTY_TABLES, log, ledger, events).violations
               == [Violation(log.origin, kind, StatementFor(w, log, ledger, second))]
  {
    hide Cosigned, StatementFor, SyncCall, Genuine, After;
    var events := [Ask, Ask, Offer(0, first), Offer(1, second)];
    assert 1 <= first.size <= |ledger| && 1 <= second.size <= |ledger| by {
      SizesOfGenuine(w, log, ledger, first);
      SizesOfGenuine(w, log, ledger, second);
    }
    assert Placed(ledger, events);
    AfterNothing(w, EMPTY_TABLES, log, ledger, events);
    AfterStep(w, EMPTY_TABLES, log, ledger, events, 0);
    AfterStep(w, EMPTY_TABLES, log, ledger, events, 1);
    AfterStep(w, EMPTY_TABLES, log, ledger, events, 2);
    AfterStep(w, EMPTY_TABLES, log, ledger, events, 3);
    assert events[..4] == events;
    SecondIsRefused(w, log, ledger, first, second);
  }

  lemma SizesOfGenuine(w: Setup, log: Log, ledger: seq<Digest>, s: Sync)
    requires Genuine(w, log, ledger, s)
    ensures 1 <= s.size <= |ledger|
  {
  }

  lemma AfterNothing(w: Setup, t: Tables, log: Log, ledger: seq<Digest>, events: seq<Event>)
    requires Placed(ledger, events)
    ensures After(w, t, log, ledger, events[..0]) == t
  {
  }

  /** The proof from 1 is one node too long for 2. */
  lemma ProofFromOneMisfitsTwo(w: Setup, ledger: seq<Digest>)
    requires |ledger| >= 3
    ensures !ProofFits(w, ledger, 3, 2, Some(1))
  {
    hide Root;
    var h, tree := w.hasher, ledger[..3];
    assert Split(3) == 2 && Split(2) == 1;
    assert Subproof(h, tree, 0, 2, 1, true) == [Root(h, tree, 1, 2)];
    var proof: seq<Bytes> := ProofFrom(w, ledger, 3, Some(1));
    assert |proof| == 2;
    assert 2 == Pow2(1);
    AndPredecessor(2);
    assert Strip(1, 2) == Strip(0, 1) == (0, 1);
    var seed := MerkleRoot(h, ledger[..2]);
    assert Walk(h, 0, 1, Start(seed), proof) == Walk(h, 0, 0, RightOf(h, Start(seed), proof[0]), proof[1..]);
    assert Walk(h, 0, 0, RightOf(h, Start(seed), proof[0]), proof[1..]) == None;
  }

  /** The same from an older mark: reported 1 when it asked, a sync of 3 entries finds the mark at 2. */
  lemma LateOfferIsRefused(w: Setup, t: Tables, log: Log, ledger: seq<Digest>, s: Sync)
    requires HonestTables(w, t, log, ledger) && Genuine(w, log, ledger, s) && s.size == 3
    requires StateOf(t, log.origin).treeSize == Some(2)
    ensures Cosigned(w, t, SyncCall(w, log, ledger, Some(1), s)).1 == Refusing(Violates(Inconsistent))
  {
    hide Cosigned, StatementFor, ProofFrom, ProofFits, SyncCall;
    SyncAnswers(w, t, log, ledger, Some(1), s);
    ProofFromOneMisfitsTwo(w, ledger);
  }

  // ---------------------------------------------------------------- identity: keys, algorithms, texts

  /** An honest sync is refused for its key exactly when another key is pinned for its origin. */
  lemma KeyChangedExactly(w: Setup, t: Tables, log: Log, ledger: seq<Digest>, known: Option<int>, s: Sync)
    requires log.origin != "" && 1 <= s.size <= |ledger| && |s.headHash| == 64 && FromHex(s.headHash).Some?
    requires w.registry.has(log.algId)
    ensures Cosigned(w, t, SyncCall(w, log, ledger, known, s)).1 == Refusing(Violates(KeyChanged))
            <==> log.origin in t.origins && t.origins[log.origin].publicKey != log.publicKey
  {
    hide Consistent, ProofFrom, MerkleRoot, FromHex, ToHex, StatementFor, HexTexts;
    StatementIsValid(w, log, ledger, s);
  }

  /** The first key offered for an origin is pinned before its signature is looked at. */
  lemma StrangerPins(w: Setup, t: Tables, call: Call)
    requires call.checkpoint.JObject? && ValidStatement(call.checkpoint.fields)
    requires Origin(call.checkpoint.fields) !in t.origins
    requires call.publicKey.Some? && call.signature.Some? && w.registry.has(call.algId)
    ensures var (t', response) := Cosigned(w, t, call);
            && t'.origins == t.origins[Origin(call.checkpoint.fields) := Pin(call.algId, call.publicKey.value)]
            && (!SignedBy(w, call.publicKey.value, call.checkpoint.fields, call.algId, call.signature.value) ==>
                  response == Refusing(Violates(BadSignature)) && t'.checkpoints == t.checkpoints)
  {
    hide Consistent, FromHex, OfferedProof, Latest;
  }

  /**
   * So one unsigned call from a stranger, made before the log's first, locks the log out: in every
   * run from then on each of its syncs is refused.
   */
  lemma OneCallLocksOut(w: Setup, calls: seq<Call>, n: nat, log: Log, ledger: seq<Digest>, known: Option<int>, s: Sync)
    requires n < |calls| && calls[n].checkpoint.JObject? && ValidStatement(calls[n].checkpoint.fields)
    requires Origin(calls[n].checkpoint.fields) == log.origin && log.origin !in Run(w, calls[..n]).origins
    requires calls[n].publicKey.Some? && calls[n].publicKey.value != log.publicKey
    requires calls[n].signature.Some? && w.registry.has(calls[n].algId)
    requires 1 <= s.size <= |ledger| && |s.headHash| == 64 && FromHex(s.headHash).Some?
    requires w.registry.has(log.algId)
    ensures var t := Run(w, calls);
            Cosigned(w, t, SyncCall(w, log, ledger, known, s)).1 == Refusing(Violates(KeyChanged))
  {
    hide Cosigned, SyncCall, FromHex;
    assert calls[..n + 1][..n] == calls[..n];
    StrangerPins(w, Run(w, calls[..n]), calls[n]);
    RunOnlyAppends(w, calls, n + 1);
    KeyChangedExactly(w, Run(w, calls), log, ledger, known, s);
  }

  /** The algorithm pinned with the key decides nothing. */
  lemma PinnedAlgorithmIgnored(w: Setup, t: Tables, call: Call, origin: string, algId: string)
    requires origin in t.origins
    ensures var other := t.(origins := t.origins[origin := Pin(algId, t.origins[origin].publicKey)]);
            && Cosigned(w, other, call).1 == Cosigned(w, t, call).1
            && Cosigned(w, other, call).0.checkpoints == Cosigned(w, t, call).0.checkpoints
            && Cosigned(w, other, call).0.violations == Cosigned(w, t, call).0.violations
  {
    assert StatementProblem(call.checkpoint).None? ==> call.checkpoint.JObject?;
    hide FromHex, OfferedProof, StatementProblem, Origin, Extending;
    if StatementProblem(call.checkpoint).None? {
      var other := t.(origins := t.origins[origin := Pin(algId, t.origins[origin].publicKey)]);
      var s := call.checkpoint.fields;
      if call.publicKey.Some? {
        ExtendingIgnoresPins(w, Pinned(t, Origin(s), call.algId, call.publicKey.value),
                             Pinned(other, Origin(s), call.algId, call.publicKey.value), s, call);
      }
    }
  }

  lemma ExtendingIgnoresPins(w: Setup, t: Tables, other: Tables, s: Statement, call: Call)
    requires ValidStatement(s) && t.checkpoints == other.checkpoints && t.violations == other.violations
    ensures var (t', response), (other', response') := Extending(w, t, s, call), Extending(w, other, s, call);
            response == response' && t'.checkpoints == other'.checkpoints && t'.violations == other'.violations
  {
    hide Consistent, FromHex, OfferedProof, Latest, StatementProblem, Origin, TreeSize, RootText;
  }

  /**
   * An authentic call is refused as a fork exactly when its size is the high-water mark's and its root
   * is spelt differently, even where both spellings are of the same bytes.
   */
  lemma ForkExactly(w: Setup, t: Tables, call: Call)
    requires call.checkpoint.JObject? && ValidStatement(call.checkpoint.fields)
    requires call.publicKey.Some? && call.signature.Some?
    requires SignedBy(w, call.publicKey.value, call.checkpoint.fields, call.algId, call.signature.value)
    requires var o := Origin(call.checkpoint.fields);
             o in t.origins ==> t.origins[o].publicKey == call.publicKey.value
    ensures var s := call.checkpoint.fields;
            var latest := Latest(t.checkpoints, Origin(s));
            Cosigned(w, t, call).1 == Refusing(Violates(Fork))
            <==> latest.Some? && latest.value.treeSize == TreeSize(s) && latest.value.rootHash != RootText(s)
  {
    hide Consistent, FromHex, OfferedProof, Latest;
  }

  /** Two spellings of the same bytes. */
  lemma {:induction false} TwoSpellings(n: nat)
    ensures var lower, upper := seq(2 * n, _ => 'a'), seq(2 * n, _ => 'A');
            && FromHex(lower) == FromHex(upper) && FromHex(lower).Some?
            && (n > 0 ==> lower != upper)
  {
    var lower, upper := seq(2 * n, _ => 'a'), seq(2 * n, _ => 'A');
    if n > 0 {
      TwoSpellings(n - 1);
      assert lower[2..] == seq(2 * (n - 1), _ => 'a') && upper[2..] == seq(2 * (n - 1), _ => 'A');
      assert lower[0] == lower[1] == 'a' && upper[0] == upper[1] == 'A';
    }
  }

  // ---------------------------------------------------------------- a run in which the promise fails

  /** White space is skipped by `bytes.fromhex`, so padding makes 31 bytes pass the 64-character test. */
  lemma {:induction false} PaddedHex(b: Bytes)
    ensures FromHex(ToHex(b) + "  ") == Some(b) && |ToHex(b) + "  "| == 2 * |b| + 2
  {
    if b == [] {
      assert ToHex(b) + "  " == "  ";
      assert "  "[1..] == " " && " "[1..] == "";
    } else {
      PaddedHex(b[1..]);
      HexPair(b[0], ToHex(b[1..]) + "  ");
      assert ToHex(b) + "  " == [HexDigit(b[0] / 16), HexDigit(b[0] % 16)] + (ToHex(b[1..]) + "  ");
      assert b == [b[0]] + b[1..];
    }
  }

  function PlainStatement(origin: string, size: nat, rootText: string): Statement {
    map["origin" := JString(origin), "tree_size" := JInt(size), "root_hash" := JString(rootText),
        "head_seq" := JInt(size - 1), "head_hash" := JString(ToHex(seq(32, _ => 0))), "timestamp" := JString("")]
  }

  lemma PlainIsValid(origin: string, size: nat, rootText: string)
    requires origin != "" && size >= 1 && |rootText| == 64 && FromHex(rootText).Some?
    ensures var s := PlainStatement(origin, size, rootText);
            ValidStatement(s) && Origin(s) == origin && TreeSize(s) == size && RootText(s) == rootText
  {
    hide FromHex, ToHex;
    HexRoundTrip(seq(32, _ => 0));
    var s := PlainStatement(origin, size, rootText);
    assert s.Keys == STATEMENT_FIELDS;
    assert HexProblem(s["root_hash"], "root_hash").None?;
    assert HexProblem(s["head_hash"], "head_hash").None?;
  }

  /** The root text of 31 bytes, padded. */
  function ShortText(tree: seq<Digest>): string
    requires |tree| == 2
  {
    ToHex(tree[0][..31]) + "  "
  }

  /** One authentic call of a log, and what the witness draws for it. */
  function SignedCall(log: Log, s: Statement, proof: seq<string>, signature: Bytes, drawn: Bytes): Call {
    Call(JObject(s), Some(log.publicKey), Some(signature), log.algId, Some(proof), drawn)
  }

  /**
   * For every log of two entries, any algorithm and key, and signatures that verify over just these two
   * statements: two calls after which the newest co-signed root is that log's and the one before it
   * is the root of no log at all.
   */
  lemma {:induction false} ShortRootIsCosigned(w: Setup, log: Log, tree: seq<Digest>,
                                               signature: Bytes, signature': Bytes, drawn: Bytes, drawn': Bytes)
    returns (calls: seq<Call>)
    requires log.origin != "" && |tree| == 2
    requires var s := PlainStatement(log.origin, 1, ShortText(tree));
             SignedBy(w, log.publicKey, s, log.algId, signature) && CosignatureVerifies(w, s, drawn)
    requires var s' := PlainStatement(log.origin, 2, ToHex(MerkleRoot(w.hasher, tree)));
             SignedBy(w, log.publicKey, s', log.algId, signature') && CosignatureVerifies(w, s', drawn')
    ensures var history := History(Run(w, calls).checkpoints, log.origin);
            && |history| == 2 && RootOf(w, history[1], tree)
            && forall d :: !RootOf(w, history[0], d)
  {
    hide MerkleRoot, ToHex, FromHex, Consistent;
    var h := w.hasher;
    var short, sibling := tree[0][..31], tree[0][31..] + tree[1];
    PaddedHex(short);
    HexRoundTrip(MerkleRoot(h, tree));
    HexTextsRoundTrip([sibling]);
    var s, s' := PlainStatement(log.origin, 1, ShortText(tree)), PlainStatement(log.origin, 2, ToHex(MerkleRoot(h, tree)));
    var first := SignedCall(log, s, [], signature, drawn);
    var second := SignedCall(log, s', HexTexts([sibling]), signature', drawn');
    HexRoundTrip(short);
    PlainIsValid(log.origin, 1, ShortText(tree));
    PlainIsValid(log.origin, 2, ToHex(MerkleRoot(h, tree)));
    ShortRootAccepted(h, tree);
    TwoCallsRecorded(w, log, s, s', first, second);
    calls := [first, second];
  }

  /** Two authentic calls of one log that both get signed leave their two rows. */
  lemma TwoCallsRecorded(w: Setup, log: Log, s: Statement, s': Statement, first: Call, second: Call)
    requires ValidStatement(s) && ValidStatement(s') && Origin(s) == Origin(s') == log.origin
    requires TreeSize(s) < TreeSize(s')
    requires first.proof.Some? && first.signature.Some? && second.proof.Some? && second.signature.Some?
    requires first == SignedCall(log, s, first.proof.value, first.signature.value, first.drawn)
    requires second == SignedCall(log, s', second.proof.value, second.signature.value, second.drawn)
    requires SignedBy(w, log.publicKey, s, log.algId, first.signature.value) && CosignatureVerifies(w, s, first.drawn)
    requires SignedBy(w, log.publicKey, s', log.algId, second.signature.value) && CosignatureVerifies(w, s', second.drawn)
    requires OfferedProof(second).Some?
    requires Consistent(w.hasher, TreeSize(s), FromHex(RootText(s)).value, TreeSize(s'), FromHex(RootText(s')).value,
                        OfferedProof(second).value)
    ensures var history := History(Run(w, [first, second]).checkpoints, log.origin);
            && |history| == 2
            && history[0].treeSize == TreeSize(s) && history[0].rootHash == RootText(s)
            && history[1].treeSize == TreeSize(s') && history[1].rootHash == RootText(s')
  {
    hide Consistent, FromHex, Run, Cosigned;
    RunOfTwo(w, first, second);
    var row := Row(1, log.origin, TreeSize(s), RootText(s), s, first.drawn);
    var row' := Row(2, log.origin, TreeSize(s'), RootText(s'), s', second.drawn);
    AuthenticIsRecorded(w, EMPTY_TABLES, log, s, first);
    var t := Cosigned(w, EMPTY_TABLES, first).0;
    assert t.checkpoints == [row];
    assert t.checkpoints[..0] == [];
    assert Latest(t.checkpoints, log.origin) == Some(row);
    AuthenticIsRecorded(w, t, log, s', second);
    assert Cosigned(w, t, second).0.checkpoints == [row] + [row'];
    HistoryAppends([row], row', log.origin);
    assert History([row], log.origin) == [row];
  }

  /** An authentic call that is the first for its origin, or proves a strictly larger tree, is recorded. */
  lemma AuthenticIsRecorded(w: Setup, t: Tables, log: Log, s: Statement, call: Call)
    requires ValidStatement(s) && Origin(s) == log.origin
    requires call.proof.Some? && call.signature.Some?
    requires call == SignedCall(log, s, call.proof.value, call.signature.value, call.drawn)
    requires SignedBy(w, log.publicKey, s, log.algId, call.signature.value) && CosignatureVerifies(w, s, call.drawn)
    requires log.origin in t.origins ==> t.origins[log.origin].publicKey == log.publicKey
    requires var latest := Latest(t.checkpoints, log.origin);
             latest.Some? ==>
               && latest.value.treeSize < TreeSize(s) && FromHex(latest.value.rootHash).Some? && OfferedProof(call).Some?
               && Consistent(w.hasher, latest.value.treeSize, FromHex(latest.value.rootHash).value,
                             TreeSize(s), FromHex(RootText(s)).value, OfferedProof(call).value)
    ensures var t' := Cosigned(w, t, call).0;
            && t'.checkpoints == t.checkpoints
                 + [Row(|t.checkpoints| + 1, log.origin, TreeSize(s), RootText(s), s, call.drawn)]
            && log.origin in t'.origins && t'.origins[log.origin].publicKey == log.publicKey
  {
    hide Consistent, FromHex, Latest, OfferedProof;
  }

  lemma RunOfTwo(w: Setup, first: Call, second: Call)
    ensures Run(w, [first, second]) == Cosigned(w, Cosigned(w, EMPTY_TABLES, first).0, second).0
  {
    hide Cosigned;
    var one: seq<Call> := [first];
    assert [first, second][..1] == one;
    assert one[..0] == [];
    assert Run(w, one) == Cosigned(w, Run(w, []), first).0;
  }
}
