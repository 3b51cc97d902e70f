/** What holds of the witness after any number of calls from anyone. */
module WitnessRuns {
  import opened ByteStrings
  import opened Merkle
  import opened MerkleProofs
  import opened WitnessStore
  import opened Witness
  import opened Wrappers

  /** The tables after the calls, from an empty store. */
  ghost function Run(w: Setup, calls: seq<Call>): Tables {
    if calls == [] then EMPTY_TABLES else Cosigned(w, Run(w, calls[..|calls| - 1]), calls[|calls| - 1]).0
  }

  ghost predicate SignedBy(w: Setup, publicKey: Bytes, s: Statement, algId: string, signature: Bytes) {
    w.registry.has(algId) && w.registry.verify(algId, publicKey, CheckpointMessage(s), signature)
  }

  /** The witness's own signature over exactly this statement verifies. */
  predicate CosignatureVerifies(w: Setup, s: Statement, signature: Bytes) {
    w.registry.verify(w.identity.algId, w.identity.publicKey, WitnessMessage(w.identity.name, s), signature)
  }

  ghost predicate SoundRow(w: Setup, origins: map<string, Pin>, r: Row) {
    && ValidStatement(r.statement)
    && r.origin == Origin(r.statement) && r.treeSize == TreeSize(r.statement) && r.rootHash == RootText(r.statement)
    && r.origin in origins
    && (exists algId, signature :: SignedBy(w, origins[r.origin].publicKey, r.statement, algId, signature))
    && CosignatureVerifies(w, r.statement, r.cosignature)
  }

  /** No size was ever co-signed with two roots. */
  ghost predicate OneRootPerSize(history: seq<Row>) {
    forall i, j :: 0 <= i < j < |history| && history[i].treeSize == history[j].treeSize
                   ==> history[i].rootHash == history[j].rootHash
  }

  ghost predicate Sound(w: Setup, t: Tables) {
    && Numbered(t.checkpoints)
    && (forall r :: r in t.checkpoints ==> SoundRow(w, t.origins, r))
    && (forall o :: Growing(History(t.checkpoints, o)) && OneRootPerSize(History(t.checkpoints, o)))
  }

  // ---------------------------------------------------------------- one call

  /** What the steps after the pin and the signature can do. */
  lemma ExtendingEffect(w: Setup, t: Tables, s: Statement, call: Call)
    requires ValidStatement(s)
    ensures var (t', response) := Extending(w, t, s, call);
            && t'.origins == t.origins
            && t'.checkpoints == (
                 if response.Signed? && !response.reissued
                 then t.checkpoints + [Row(|t.checkpoints| + 1, Origin(s), TreeSize(s), RootText(s), s, response.signature)]
                 else t.checkpoints)
            && (response.Signed? ==> response.treeSize == TreeSize(s))
            && t'.violations == (
                 if response.Refusing? && response.reason.Violates?
                 then t.violations + [Violation(Origin(s), response.reason.kind, s)]
                 else t.violations)
  {
    hide StatementProblem, Origin, TreeSize, RootText, Consistent, OfferedProof, Latest, FromHex;
  }

  /**
   * Everything a call can do to the tables. Only a new signature adds a co-signed row; every
   * violation is recorded with the statement that was offered, and nothing else is.
   */
  lemma CallEffect(w: Setup, t: Tables, call: Call)
    ensures var (t', response) := Cosigned(w, t, call);
            && (t'.origins == t.origins
                || (call.checkpoint.JObject? && ValidStatement(call.checkpoint.fields) && call.publicKey.Some?
                    && Origin(call.checkpoint.fields) !in t.origins
                    && t'.origins == t.origins[Origin(call.checkpoint.fields) := Pin(call.algId, call.publicKey.value)]))
            && (response.Signed? && !response.reissued <==> t'.checkpoints != t.checkpoints)
            && (response.Signed? ==>
                  call.checkpoint.JObject? && ValidStatement(call.checkpoint.fields)
                  && response.treeSize == TreeSize(call.checkpoint.fields))
            && (response.Signed? && !response.reissued ==>
                  var s := call.checkpoint.fields;
                  t'.checkpoints == t.checkpoints
                    + [Row(|t.checkpoints| + 1, Origin(s), TreeSize(s), RootText(s), s, response.signature)])
            && (t'.violations ==
                if response.Refusing? && response.reason.Violates?
                then t.violations + [Violation(Origin(call.checkpoint.fields), response.reason.kind, call.checkpoint.fields)]
                else t.violations)
  {
    assert StatementProblem(call.checkpoint).None? ==> call.checkpoint.JObject?;
    hide StatementProblem, Origin, TreeSize, RootText, Extending;
    if StatementProblem(call.checkpoint).None? && call.publicKey.Some? {
      var s := call.checkpoint.fields;
      ExtendingEffect(w, Pinned(t, Origin(s), call.algId, call.publicKey.value), s, call);
    }
  }

  /** A call that signs anew found the key pinned, the log's signature good, and its tree no smaller. */
  lemma NewSignature(w: Setup, t: Tables, call: Call)
    requires var response := Cosigned(w, t, call).1; response.Signed? && !response.reissued
    ensures var (t', response) := Cosigned(w, t, call);
            var s := call.checkpoint.fields;
            && Origin(s) in t'.origins && call.publicKey == Some(t'.origins[Origin(s)].publicKey)
            && call.signature.Some? && SignedBy(w, t'.origins[Origin(s)].publicKey, s, call.algId, call.signature.value)
            && CosignatureVerifies(w, s, response.signature)
    ensures var s := call.checkpoint.fields;
            Latest(t.checkpoints, Origin(s)).Some? ==>
              var latest := Latest(t.checkpoints, Origin(s)).value;
              && latest.treeSize <= TreeSize(s)
              && (latest.treeSize == TreeSize(s) ==> latest.rootHash == RootText(s))
              && FromHex(latest.rootHash).Some? && OfferedProof(call).Some?
              && Consistent(w.hasher, latest.treeSize, FromHex(latest.rootHash).value,
                            TreeSize(s), FromHex(RootText(s)).value, OfferedProof(call).value)
  {
  }

  lemma HistoryStays(w: Setup, t: Tables, call: Call, o: string)
    requires Sound(w, t)
    ensures var (t', response) := Cosigned(w, t, call);
            && Growing(History(t'.checkpoints, o))
            && OneRootPerSize(History(t'.checkpoints, o))
  {
    var (t', response) := Cosigned(w, t, call);
    if response.Signed? && !response.reissued {
      CallEffect(w, t, call);
      NewSignature(w, t, call);
      var s := call.checkpoint.fields;
      var row := Row(|t.checkpoints| + 1, Origin(s), TreeSize(s), RootText(s), s, response.signature);
      HistoryAppends(t.checkpoints, row, o);
      if o == row.origin {
        LatestIsLast(t.checkpoints, o);
        NewestStays(History(t.checkpoints, o), row);
      }
    } else {
      CallEffect(w, t, call);
    }
  }

  lemma NewestStays(history: seq<Row>, row: Row)
    requires Growing(history) && OneRootPerSize(history)
    requires history != [] ==>
               var last := history[|history| - 1];
               last.treeSize <= row.treeSize && (last.treeSize == row.treeSize ==> last.rootHash == row.rootHash)
    ensures Growing(history + [row]) && OneRootPerSize(history + [row])
  {
    var longer := history + [row];
    forall i, j | 0 <= i < j < |longer|
      ensures longer[i].treeSize <= longer[j].treeSize
      ensures longer[i].treeSize == longer[j].treeSize ==> longer[i].rootHash == longer[j].rootHash
    {
      if j == |history| && i < |history| - 1 {
        assert history[i].treeSize <= history[|history| - 1].treeSize;
      }
    }
  }

  lemma RowsStay(w: Setup, t: Tables, call: Call)
    requires Sound(w, t)
    ensures var t' := Cosigned(w, t, call).0;
            Numbered(t'.checkpoints) && forall r :: r in t'.checkpoints ==> SoundRow(w, t'.origins, r)
  {
    var (t', response) := Cosigned(w, t, call);
    CallEffect(w, t, call);
    forall r | r in t.checkpoints ensures SoundRow(w, t'.origins, r) {
      assert SoundRow(w, t.origins, r);
      assert t'.origins[r.origin] == t.origins[r.origin];
    }
    if response.Signed? && !response.reissued {
      NewSignature(w, t, call);
      forall i | 0 <= i < |t'.checkpoints| ensures t'.checkpoints[i].id == i + 1 {
        if i < |t.checkpoints| { assert t'.checkpoints[i] == t.checkpoints[i]; }
      }
    }
  }

  lemma CallKeepsSound(w: Setup, t: Tables, call: Call)
    requires Sound(w, t)
    ensures Sound(w, Cosigned(w, t, call).0)
  {
    RowsStay(w, t, call);
    forall o
      ensures Growing(History(Cosigned(w, t, call).0.checkpoints, o))
      ensures OneRootPerSize(History(Cosigned(w, t, call).0.checkpoints, o))
    {
      HistoryStays(w, t, call, o);
    }
  }

  // ---------------------------------------------------------------- every run

  /**
   * After every run: recorded sizes never decrease, no size has two roots, every recorded statement
   * is well-formed and signed under its origin's pinned key, every co-signature verifies.
   */
  lemma {:induction false} RunIsSound(w: Setup, calls: seq<Call>)
    ensures Sound(w, Run(w, calls))
  {
    if calls != [] {
      RunIsSound(w, calls[..|calls| - 1]);
      CallKeepsSound(w, Run(w, calls[..|calls| - 1]), calls[|calls| - 1]);
    }
  }

  /** A pinned key never changes, and the co-signed history is only ever appended to. */
  lemma {:induction false} RunOnlyAppends(w: Setup, calls: seq<Call>, n: nat)
    requires n <= |calls|
    ensures var before, after := Run(w, calls[..n]), Run(w, calls);
            && (forall o :: o in before.origins ==> o in after.origins && after.origins[o] == before.origins[o])
            && before.checkpoints <= after.checkpoints
            && before.violations <= after.violations
    decreases |calls|
  {
    if n == |calls| {
      assert calls[..n] == calls;
    } else {
      var earlier := calls[..|calls| - 1];
      assert earlier[..n] == calls[..n];
      RunOnlyAppends(w, earlier, n);
      CallEffect(w, Run(w, earlier), calls[|calls| - 1]);
    }
  }

  /** In every reachable state the high-water query is the row co-signed last for that origin. */
  lemma {:induction false} HighWaterMark(w: Setup, calls: seq<Call>, origin: string)
    ensures var t := Run(w, calls);
            var history := History(t.checkpoints, origin);
            Latest(t.checkpoints, origin) == if history == [] then None else Some(history[|history| - 1])
  {
    RunIsSound(w, calls);
    LatestIsLast(Run(w, calls).checkpoints, origin);
  }

  /** Every signature handed out, new or reissued, verifies over exactly the statement offered. */
  lemma {:induction false} SignaturesVerify(w: Setup, calls: seq<Call>, call: Call)
    ensures var response := Cosigned(w, Run(w, calls), call).1;
            response.Signed? ==> CosignatureVerifies(w, call.checkpoint.fields, response.signature)
  {
    var t := Run(w, calls);
    var response := Cosigned(w, t, call).1;
    if response.Signed? {
      CallEffect(w, t, call);
      if response.reissued {
        hide FromHex, Consistent, OfferedProof, StatementProblem;
        RunIsSound(w, calls);
        LatestIsFirst(t.checkpoints, Origin(call.checkpoint.fields));
      } else {
        NewSignature(w, t, call);
      }
    }
  }

  // ---------------------------------------------------------------- what is refused, and what is recorded

  /** 64 characters that read as hexadecimal. */
  predicate HexField(value: Json) {
    value.JString? && |value.text| == 64 && FromHex(value.text).Some?
  }

  /** The six fields of a checkpoint and no other, the last entry's number one less than the size. */
  predicate SixFields(s: Statement) {
    && s.Keys == {"origin", "tree_size", "root_hash", "head_seq", "head_hash", "timestamp"}
    && s["origin"].JString? && s["origin"].text != ""
    && s["tree_size"].JInt? && s["tree_size"].number >= 1 && s["head_seq"] == JInt(s["tree_size"].number - 1)
    && HexField(s["root_hash"]) && HexField(s["head_hash"]) && s["timestamp"].JString?
  }

  lemma ValidIsSixFields(s: Statement)
    ensures ValidStatement(s) <==> SixFields(s)
    ensures ValidStatement(s) ==>
              Origin(s) == s["origin"].text && TreeSize(s) == s["tree_size"].number && RootText(s) == s["root_hash"].text
  {
    hide FromHex;
  }

  /** A call is refused as malformed exactly when its checkpoint is not six such fields; then nothing is written. */
  lemma MalformedExactly(w: Setup, t: Tables, call: Call)
    ensures var (t', response) := Cosigned(w, t, call);
            && (response.Refusing? && response.reason.Malformed?
                <==> !(call.checkpoint.JObject? && SixFields(call.checkpoint.fields)))
            && (response.Refusing? && response.reason.Malformed? ==> t' == t)
  {
    if call.checkpoint.JObject? { ValidIsSixFields(call.checkpoint.fields); }
    hide SixFields, Extending, Latest;
    if StatementProblem(call.checkpoint).None? && call.publicKey.Some? {
      var s := call.checkpoint.fields;
      NeverMalformed(w, Pinned(t, Origin(s), call.algId, call.publicKey.value), s, call);
    }
  }

  lemma NeverMalformed(w: Setup, t: Tables, s: Statement, call: Call)
    requires ValidStatement(s)
    ensures var response := Extending(w, t, s, call).1; response.Refusing? ==> !response.reason.Malformed?
  {
    hide StatementProblem, Origin, TreeSize, RootText, Consistent, OfferedProof, Latest, FromHex;
  }

  /** Every row and every violation there ever is holds a statement of six such fields, and the row is filed under them. */
  lemma {:induction false} RecordsAreWellFormed(w: Setup, calls: seq<Call>)
    ensures forall r :: r in Run(w, calls).checkpoints ==>
              && SixFields(r.statement) && JString(r.origin) == r.statement["origin"]
              && JInt(r.treeSize) == r.statement["tree_size"] && JString(r.rootHash) == r.statement["root_hash"]
    ensures forall v :: v in Run(w, calls).violations ==>
              SixFields(v.offered) && JString(v.origin) == v.offered["origin"]
  {
    if calls != [] {
      var t, call := Run(w, calls[..|calls| - 1]), calls[|calls| - 1];
      RecordsAreWellFormed(w, calls[..|calls| - 1]);
      CallEffect(w, t, call);
      MalformedExactly(w, t, call);
      hide Cosigned;
      if call.checkpoint.JObject? { ValidIsSixFields(call.checkpoint.fields); }
    }
  }

  /**
   * For a well-formed call, exactly when it ends before the history is looked at, in this order: text that
   * is no base64, an algorithm this build lacks, another key pinned, a bad signature. The first two write
   * nothing; the other two record a violation, a bad signature after pinning a first key.
   */
  lemma IdentityAnswers(w: Setup, t: Tables, call: Call)
    requires call.checkpoint.JObject? && ValidStatement(call.checkpoint.fields)
    ensures var (t', response) := Cosigned(w, t, call);
            var s := call.checkpoint.fields;
            var readable := call.publicKey.Some? && call.signature.Some?;
            var known := readable && w.registry.has(call.algId);
            var same := known && (Origin(s) in t.origins ==> t.origins[Origin(s)].publicKey == call.publicKey.value);
            var good := same
              && w.registry.verify(call.algId, call.publicKey.value, CheckpointMessage(s), call.signature.value);
            && (response == Refusing(NotBase64) <==> !readable)
            && (response == Refusing(UnknownAlgorithm) <==> readable && !known)
            && (response == Refusing(Violates(KeyChanged)) <==> known && !same)
            && (response == Refusing(Violates(BadSignature)) <==> same && !good)
            && (!known ==> t' == t)
            && (known && !same ==> t' == t.(violations := t.violations + [Violation(Origin(s), KeyChanged, s)]))
            && (same && !good ==>
                  && t'.checkpoints == t.checkpoints
                  && t'.violations == t.violations + [Violation(Origin(s), BadSignature, s)]
                  && t'.origins == if Origin(s) in t.origins then t.origins
                                   else t.origins[Origin(s) := Pin(call.algId, call.publicKey.value)])
  {
    hide Extending, StatementProblem, Origin;
    var s := call.checkpoint.fields;
    if call.publicKey.Some? {
      OnlyHistoryRefuses(w, Pinned(t, Origin(s), call.algId, call.publicKey.value), s, call);
    }
  }

  lemma OnlyHistoryRefuses(w: Setup, t: Tables, s: Statement, call: Call)
    requires ValidStatement(s)
    ensures Extending(w, t, s, call).1 !in
              {Refusing(NotBase64), Refusing(UnknownAlgorithm),
               Refusing(Violates(KeyChanged)), Refusing(Violates(BadSignature))}
  {
    hide StatementProblem, Origin, TreeSize, RootText, Consistent, OfferedProof, Latest, FromHex;
  }

  /** Only names that a checkpoint can carry are pinned. */
  lemma {:induction false} PinnedNames(w: Setup, calls: seq<Call>)
    ensures "" !in Run(w, calls).origins
  {
    if calls != [] {
      var call := calls[|calls| - 1];
      PinnedNames(w, calls[..|calls| - 1]);
      CallEffect(w, Run(w, calls[..|calls| - 1]), call);
      if call.checkpoint.JObject? { ValidIsSixFields(call.checkpoint.fields); }
    }
  }

  /**
   * In every reachable state, for every name: `/state` reports the size and the root of the checkpoint
   * co-signed last under it, nulls when there is none, and the key that is pinned for it.
   */
  lemma StateIsNewest(w: Setup, calls: seq<Call>, origin: string)
    ensures var t := Run(w, calls);
            var history, answer := History(t.checkpoints, origin), StateOf(t, origin);
            && (history == [] ==> answer.treeSize == None && answer.rootHash == None)
            && (history != [] ==>
                  var s := history[|history| - 1].statement;
                  ValidStatement(s) && answer.treeSize == Some(TreeSize(s)) && answer.rootHash == Some(RootText(s)))
            && (answer.logKey.Some? <==> origin in t.origins)
            && (answer.logKey.Some? ==> answer.logKey.value == t.origins[origin].publicKey)
  {
    RunIsSound(w, calls);
    HighWaterMark(w, calls, origin);
    PinnedNames(w, calls);
    var t := Run(w, calls);
    var history := History(t.checkpoints, origin);
    HistoryMembers(t.checkpoints, origin);
    hide Run, FromHex;
    if history != [] {
      var r := history[|history| - 1];
      assert r in history;
      assert SoundRow(w, t.origins, r);
      ValidIsSixFields(r.statement);
    }
  }

  // ---------------------------------------------------------------- one append-only log

  function RootBytes(r: Row): Bytes {
    if FromHex(r.rootHash).Some? then FromHex(r.rootHash).value else []
  }

  /** Row b was co-signed on a proof that its tree contains row a's, hashing only the given inputs. */
  ghost predicate LinkedBy(w: Setup, inputs: set<Bytes>, a: Row, b: Row, proof: seq<Bytes>) {
    && 1 <= a.treeSize <= b.treeSize
    && Consistent(w.hasher, a.treeSize, RootBytes(a), b.treeSize, RootBytes(b), proof)
    && HashedBy(w.hasher, a.treeSize, RootBytes(a), b.treeSize, proof) <= inputs
    && (a.treeSize < b.treeSize ==> SeedIsDigest(a.treeSize, RootBytes(a), proof))
  }

  ghost predicate Linked(w: Setup, inputs: set<Bytes>, a: Row, b: Row) {
    exists proof :: LinkedBy(w, inputs, a, b, proof)
  }

  ghost predicate Chained(w: Setup, inputs: set<Bytes>, history: seq<Row>) {
    forall i {:trigger history[i]} :: 0 < i < |history| ==> Linked(w, inputs, history[i - 1], history[i])
  }

  /** The call is signed anew, for this origin. */
  ghost predicate SignsFor(w: Setup, t: Tables, call: Call, origin: string) {
    var response := Cosigned(w, t, call).1;
    && response.Signed? && !response.reissued
    && call.checkpoint.JObject? && ValidStatement(call.checkpoint.fields) && Origin(call.checkpoint.fields) == origin
  }

  /** An accepted link: the call is signed anew from a strictly smaller high-water mark. */
  ghost predicate Extends(w: Setup, t: Tables, call: Call, origin: string) {
    && SignsFor(w, t, call, origin)
    && Latest(t.checkpoints, origin).Some?
    && Latest(t.checkpoints, origin).value.treeSize < TreeSize(call.checkpoint.fields)
  }

  /** Its proof started from 32 bytes. */
  ghost predicate Seeded(t: Tables, call: Call, origin: string) {
    var latest := Latest(t.checkpoints, origin);
    && latest.Some? && latest.value.treeSize >= 1 && OfferedProof(call).Some?
    && SeedIsDigest(latest.value.treeSize, RootBytes(latest.value), OfferedProof(call).value)
  }

  /** Every accepted link of the origin started from 32 bytes; nothing is asked of any other call. */
  ghost predicate SeededRun(w: Setup, calls: seq<Call>, origin: string) {
    calls == []
    || (var earlier, call := calls[..|calls| - 1], calls[|calls| - 1];
        && SeededRun(w, earlier, origin)
        && (Extends(w, Run(w, earlier), call, origin) ==> Seeded(Run(w, earlier), call, origin)))
  }

  /** What the witness hashes to check the call's proof against its high-water mark. */
  ghost function CallInputs(w: Setup, t: Tables, call: Call): set<Bytes> {
    if !call.checkpoint.JObject? || !ValidStatement(call.checkpoint.fields) || OfferedProof(call).None? then {}
    else
      var s := call.checkpoint.fields;
      var latest := Latest(t.checkpoints, Origin(s));
      if latest.None? then {}
      else HashedBy(w.hasher, latest.value.treeSize, RootBytes(latest.value), TreeSize(s), OfferedProof(call).value)
  }

  ghost function RunInputs(w: Setup, calls: seq<Call>): set<Bytes> {
    if calls == [] then {}
    else
      var earlier, call := calls[..|calls| - 1], calls[|calls| - 1];
      RunInputs(w, earlier) + CallInputs(w, Run(w, earlier), call)
  }

  lemma ChainedMore(w: Setup, inputs: set<Bytes>, more: set<Bytes>, history: seq<Row>)
    requires Chained(w, inputs, history) && inputs <= more
    ensures Chained(w, more, history)
  {
    forall i {:trigger history[i]} | 0 < i < |history| ensures Linked(w, more, history[i - 1], history[i]) {
      var proof :| LinkedBy(w, inputs, history[i - 1], history[i], proof);
      assert LinkedBy(w, more, history[i - 1], history[i], proof);
    }
  }

  /** A new signature links the new row to the origin's last one. */
  lemma NewRowIsLinked(w: Setup, t: Tables, call: Call, origin: string)
    requires Sound(w, t) && SignsFor(w, t, call, origin) && Latest(t.checkpoints, origin).Some?
    requires Extends(w, t, call, origin) ==> Seeded(t, call, origin)
    ensures var t' := Cosigned(w, t, call).0;
            && |t'.checkpoints| > 0
            && Linked(w, CallInputs(w, t, call), Latest(t.checkpoints, origin).value, t'.checkpoints[|t'.checkpoints| - 1])
  {
    var (t', response) := Cosigned(w, t, call);
    CallEffect(w, t, call);
    NewSignature(w, t, call);
    LatestIsFirst(t.checkpoints, origin);
    var latest, row := Latest(t.checkpoints, origin).value, t'.checkpoints[|t'.checkpoints| - 1];
    assert SoundRow(w, t.origins, latest);
    hide Cosigned;
    assert LinkedBy(w, CallInputs(w, t, call), latest, row, OfferedProof(call).value);
  }

  /** In a seeded run each row of the origin is linked to the one before it. */
  lemma {:induction false} RunIsChained(w: Setup, calls: seq<Call>, origin: string)
    requires SeededRun(w, calls, origin)
    ensures Chained(w, RunInputs(w, calls), History(Run(w, calls).checkpoints, origin))
  {
    if calls != [] {
      var earlier, call := calls[..|calls| - 1], calls[|calls| - 1];
      var t := Run(w, earlier);
      RunIsChained(w, earlier, origin);
      RunIsSound(w, earlier);
      hide Cosigned, Sound, CallInputs, FromHex, Extends, Seeded;
      ChainedMore(w, RunInputs(w, earlier), RunInputs(w, calls), History(t.checkpoints, origin));
      CallChains(w, t, call, origin, RunInputs(w, calls));
    }
  }

  /** What one call does to an origin's history: one row at its end when it signs for it, and nothing else. */
  lemma HistoryEffect(w: Setup, t: Tables, call: Call, origin: string)
    ensures var t' := Cosigned(w, t, call).0;
            var history, history' := History(t.checkpoints, origin), History(t'.checkpoints, origin);
            if SignsFor(w, t, call, origin) then
              && |t'.checkpoints| > 0 && history' == history + [t'.checkpoints[|t'.checkpoints| - 1]]
              && t'.checkpoints[|t'.checkpoints| - 1].treeSize == TreeSize(call.checkpoint.fields)
              && t'.checkpoints[|t'.checkpoints| - 1].rootHash == RootText(call.checkpoint.fields)
            else history' == history
  {
    var (t', response) := Cosigned(w, t, call);
    CallEffect(w, t, call);
    if response.Signed? && !response.reissued {
      hide Cosigned;
      HistoryAppends(t.checkpoints, t'.checkpoints[|t'.checkpoints| - 1], origin);
    }
  }

  /** One call keeps an origin's history chained. */
  lemma CallChains(w: Setup, t: Tables, call: Call, origin: string, inputs: set<Bytes>)
    requires Sound(w, t) && CallInputs(w, t, call) <= inputs
    requires Extends(w, t, call, origin) ==> Seeded(t, call, origin)
    requires Chained(w, inputs, History(t.checkpoints, origin))
    ensures Chained(w, inputs, History(Cosigned(w, t, call).0.checkpoints, origin))
  {
    hide FromHex, Chained, Cosigned, Extends, Seeded, SignsFor, CallInputs;
    var history := History(t.checkpoints, origin);
    var t' := Cosigned(w, t, call).0;
    HistoryEffect(w, t, call, origin);
    if SignsFor(w, t, call, origin) {
      var row := t'.checkpoints[|t'.checkpoints| - 1];
      LatestIsLast(t.checkpoints, origin);
      if history != [] {
        NewRowIsLinked(w, t, call, origin);
        LinkedMore(w, CallInputs(w, t, call), inputs, history[|history| - 1], row);
      }
      ChainedAppends(w, inputs, history, row);
    }
  }

  lemma LinkedMore(w: Setup, inputs: set<Bytes>, more: set<Bytes>, a: Row, b: Row)
    requires Linked(w, inputs, a, b) && inputs <= more
    ensures Linked(w, more, a, b)
  {
    var proof :| LinkedBy(w, inputs, a, b, proof);
    assert LinkedBy(w, more, a, b, proof);
  }

  lemma ChainedAppends(w: Setup, inputs: set<Bytes>, history: seq<Row>, row: Row)
    requires Chained(w, inputs, history)
    requires history != [] ==> Linked(w, inputs, history[|history| - 1], row)
    ensures Chained(w, inputs, history + [row])
  {
    var longer := history + [row];
    forall i {:trigger longer[i]} | 0 < i < |longer| ensures Linked(w, inputs, longer[i - 1], longer[i]) {
      if i < |history| { assert longer[i - 1] == history[i - 1] && longer[i] == history[i]; }
    }
  }

  /** The row's root is the Merkle root of this log, and its size the log's. */
  ghost predicate RootOf(w: Setup, r: Row, log: seq<Digest>) {
    r.treeSize == |log| && RootBytes(r) == MerkleRoot(w.hasher, log)
  }

  /** Going back along the chain, every root is the root of a prefix. */
  lemma {:induction false} ChainIsPrefixes(w: Setup, inputs: set<Bytes>, history: seq<Row>, log: seq<Digest>, i: nat, j: nat)
    requires Chained(w, inputs, history)
    requires i <= j < |history| && RootOf(w, history[j], log)
    requires NoCollision(w.hasher, inputs + TreeInputs(w.hasher, log, 0, |log|))
    ensures 0 <= history[i].treeSize <= |log| && RootOf(w, history[i], log[..history[i].treeSize])
    ensures TreeInputs(w.hasher, log[..history[i].treeSize], 0, history[i].treeSize)
            <= inputs + TreeInputs(w.hasher, log, 0, |log|)
    decreases j
  {
    hide Consistent, TreeInputs, HashedBy, ConsistencyProof, MerkleRoot, SeedIsDigest, FromHex;
    if i == j {
      assert log[..|log|] == log;
    } else {
      var a, b := history[j - 1], history[j];
      assert Linked(w, inputs, history[j - 1], history[j]);
      var proof :| LinkedBy(w, inputs, a, b, proof);
      var m := a.treeSize;
      ConsistencySound(w.hasher, log, m, RootBytes(a), proof);
      ChainIsPrefixes(w, inputs, history, log[..m], i, j - 1);
      assert log[..m][..history[i].treeSize] == log[..history[i].treeSize];
    }
  }

  /**
   * The witness's promise, over every run of calls from anyone whose accepted links for the origin are
   * seeded: if the newest root co-signed for it is the Merkle root of some log, every root ever
   * co-signed for it is the root of that log's prefix of its size. Truncation, rewriting and forking
   * are never co-signed.
   */
  lemma {:induction false} EveryRootIsAPrefixRoot(w: Setup, calls: seq<Call>, origin: string, log: seq<Digest>, i: nat)
    requires SeededRun(w, calls, origin)
    requires var history := History(Run(w, calls).checkpoints, origin);
             i < |history| && RootOf(w, history[|history| - 1], log)
    requires NoCollision(w.hasher, RunInputs(w, calls) + TreeInputs(w.hasher, log, 0, |log|))
    ensures var r := History(Run(w, calls).checkpoints, origin)[i];
            0 <= r.treeSize <= |log| && RootOf(w, r, log[..r.treeSize])
  {
    hide Run, RunInputs, TreeInputs, History, Chained, SeededRun, RootOf, NoCollision;
    RunIsChained(w, calls, origin);
    var history := History(Run(w, calls).checkpoints, origin);
    ChainIsPrefixes(w, RunInputs(w, calls), history, log, i, |history| - 1);
  }

  /** Any two logs the witness co-signed for one origin are one log at two moments. */
  lemma {:induction false} CosignedLogsArePrefixes(w: Setup, calls: seq<Call>, origin: string,
                                                   earlier: seq<Digest>, later: seq<Digest>, i: nat, j: nat)
    requires SeededRun(w, calls, origin)
    requires var history := History(Run(w, calls).checkpoints, origin);
             i <= j < |history| && RootOf(w, history[i], earlier) && RootOf(w, history[j], later)
    requires NoCollision(w.hasher, RunInputs(w, calls) + TreeInputs(w.hasher, earlier, 0, |earlier|)
                                   + TreeInputs(w.hasher, later, 0, |later|))
    ensures earlier <= later
  {
    hide Run, RunInputs, TreeInputs, History, Chained, SeededRun, Root, RootBytes;
    RunIsChained(w, calls, origin);
    var history, h := History(Run(w, calls).checkpoints, origin), w.hasher;
    var inputs := RunInputs(w, calls) + TreeInputs(h, earlier, 0, |earlier|) + TreeInputs(h, later, 0, |later|);
    ChainIsPrefixes(w, RunInputs(w, calls), history, later, i, j);
    var m := |earlier|;
    WindowInjective(h, inputs, earlier, later[..m], 0, m);
    assert earlier == earlier[0..m] == later[..m][0..m] == later[..m];
  }

  // ---------------------------------------------------------------- exactly when the promise is kept

  /** Every row is the root of this log's prefix of its size. */
  ghost predicate AllPrefixes(w: Setup, history: seq<Row>, log: seq<Digest>) {
    forall i {:trigger history[i]} :: 0 <= i < |history| ==> PrefixRow(w, history[i], log)
  }

  ghost predicate PrefixRow(w: Setup, r: Row, log: seq<Digest>) {
    0 <= r.treeSize <= |log| && RootOf(w, r, log[..r.treeSize])
  }

  /** What the trees of the log's first n prefixes hash. */
  ghost function PrefixTrees(h: Hasher, log: seq<Digest>, n: nat): set<Bytes>
    requires n <= |log|
  {
    TreeInputs(h, log, 0, n) + if n == 0 then {} else PrefixTrees(h, log, n - 1)
  }

  lemma {:induction false} PrefixTreesHold(h: Hasher, log: seq<Digest>, n: nat, m: nat)
    requires m <= n <= |log|
    ensures TreeInputs(h, log, 0, m) <= PrefixTrees(h, log, n)
  {
    hide TreeInputs;
    if m < n { PrefixTreesHold(h, log, n - 1, m); }
  }

  lemma NoCollisionFewer(h: Hasher, fewer: set<Bytes>, inputs: set<Bytes>)
    requires NoCollision(h, inputs) && fewer <= inputs
    ensures NoCollision(h, fewer)
  {
  }

  /** A link between two prefix roots of one log started from 32 bytes. */
  lemma PrefixLinkIsSeeded(w: Setup, t: Tables, call: Call, origin: string, log: seq<Digest>, inputs: set<Bytes>)
    requires Sound(w, t) && Extends(w, t, call, origin)
    requires PrefixRow(w, Latest(t.checkpoints, origin).value, log)
    requires TreeSize(call.checkpoint.fields) <= |log|
    requires FromHex(RootText(call.checkpoint.fields)).value == MerkleRoot(w.hasher, log[..TreeSize(call.checkpoint.fields)])
    requires CallInputs(w, t, call) + PrefixTrees(w.hasher, log, |log|) <= inputs && NoCollision(w.hasher, inputs)
    ensures Seeded(t, call, origin)
  {
    NewSignature(w, t, call);
    LatestIsFirst(t.checkpoints, origin);
    var s, latest, h := call.checkpoint.fields, Latest(t.checkpoints, origin).value, w.hasher;
    assert SoundRow(w, t.origins, latest);
    hide Cosigned, Consistent, TreeInputs, HashedBy, MerkleRoot, SeedIsDigest, FromHex, PrefixTrees;
    hide ConsistencyProof, NoCollision;
    var m, n, proof := latest.treeSize, TreeSize(s), OfferedProof(call).value;
    var tree := log[..n];
    assert tree[..m] == log[..m];
    TreeInputsOfPrefix(h, log, n, 0, n);
    TreeInputsOfPrefix(h, log, n, 0, m);
    PrefixTreesHold(h, log, |log|, n);
    PrefixTreesHold(h, log, |log|, m);
    NoCollisionFewer(h, TreeInputs(h, tree, 0, n) + TreeInputs(h, tree, 0, m) + HashedBy(h, m, RootBytes(latest), n, proof),
                     inputs);
    AcceptanceExact(h, tree, m, RootBytes(latest), proof);
  }

  /** If every root of the origin is a prefix root of one log, every accepted link was seeded. */
  lemma {:induction false} PrefixesAreSeeded(w: Setup, calls: seq<Call>, origin: string, log: seq<Digest>, inputs: set<Bytes>)
    requires AllPrefixes(w, History(Run(w, calls).checkpoints, origin), log)
    requires RunInputs(w, calls) + PrefixTrees(w.hasher, log, |log|) <= inputs && NoCollision(w.hasher, inputs)
    ensures SeededRun(w, calls, origin)
  {
    if calls != [] {
      var earlier, call := calls[..|calls| - 1], calls[|calls| - 1];
      var t, t' := Run(w, earlier), Run(w, calls);
      var history, history' := History(t.checkpoints, origin), History(t'.checkpoints, origin);
      RunIsSound(w, earlier);
      HistoryEffect(w, t, call, origin);
      hide Cosigned, Seeded, CallInputs, PrefixTrees, NoCollision, PrefixRow, Sound, FromHex;
      forall i | 0 <= i < |history| ensures PrefixRow(w, history[i], log) {
        assert history'[i] == history[i];
      }
      PrefixesAreSeeded(w, earlier, origin, log, inputs);
      if Extends(w, t, call, origin) {
        NewestIsPrefix(w, t, call, origin, log);
        PrefixLinkIsSeeded(w, t, call, origin, log, inputs);
      }
    }
  }

  lemma NewestIsPrefix(w: Setup, t: Tables, call: Call, origin: string, log: seq<Digest>)
    requires Sound(w, t) && Extends(w, t, call, origin)
    requires AllPrefixes(w, History(Cosigned(w, t, call).0.checkpoints, origin), log)
    ensures PrefixRow(w, Latest(t.checkpoints, origin).value, log)
    ensures TreeSize(call.checkpoint.fields) <= |log|
    ensures FromHex(RootText(call.checkpoint.fields)).value == MerkleRoot(w.hasher, log[..TreeSize(call.checkpoint.fields)])
  {
    HistoryEffect(w, t, call, origin);
    LatestIsLast(t.checkpoints, origin);
    hide Cosigned, FromHex, MerkleRoot;
    var history, history' := History(t.checkpoints, origin), History(Cosigned(w, t, call).0.checkpoints, origin);
    assert history'[|history| - 1] == Latest(t.checkpoints, origin).value;
    assert PrefixRow(w, history'[|history|], log);
  }

  /**
   * Exactly when the promise is kept. With the newest root that of a log: every root co-signed for the
   * origin is the root of a prefix of it, if and only if every accepted link of that origin started
   * from a hash of 32 bytes.
   */
  lemma {:induction false} PromiseExact(w: Setup, calls: seq<Call>, origin: string, log: seq<Digest>)
    requires var history := History(Run(w, calls).checkpoints, origin);
             history != [] && RootOf(w, history[|history| - 1], log)
    requires NoCollision(w.hasher, RunInputs(w, calls) + PrefixTrees(w.hasher, log, |log|))
    ensures AllPrefixes(w, History(Run(w, calls).checkpoints, origin), log) <==> SeededRun(w, calls, origin)
  {
    hide Run, RunInputs, TreeInputs, History, RootOf, NoCollision, PrefixTrees, SeededRun;
    var history := History(Run(w, calls).checkpoints, origin);
    var inputs := RunInputs(w, calls) + PrefixTrees(w.hasher, log, |log|);
    if SeededRun(w, calls, origin) {
      PrefixTreesHold(w.hasher, log, |log|, |log|);
      NoCollisionFewer(w.hasher, RunInputs(w, calls) + TreeInputs(w.hasher, log, 0, |log|), inputs);
      forall i | 0 <= i < |history| ensures PrefixRow(w, history[i], log) {
        EveryRootIsAPrefixRoot(w, calls, origin, log, i);
      }
    }
    if AllPrefixes(w, history, log) {
      PrefixesAreSeeded(w, calls, origin, log, inputs);
    }
  }

  // ---------------------------------------------------------------- what the witness could test

  /** The texts a call offers for its root and its first proof node are 64 characters, none of them white space. */
  predicate PlainTexts(call: Call) {
    && (call.checkpoint.JObject? && ValidStatement(call.checkpoint.fields) ==> SpaceFree(RootText(call.checkpoint.fields)))
    && (call.proof.Some? && call.proof.value != [] ==> |call.proof.value[0]| == 64 && SpaceFree(call.proof.value[0]))
  }

  /** Every call signed anew for the origin offered plain texts. */
  ghost predicate PlainRun(w: Setup, calls: seq<Call>, origin: string) {
    calls == []
    || (var earlier, call := calls[..|calls| - 1], calls[|calls| - 1];
        && PlainRun(w, earlier, origin)
        && (SignsFor(w, Run(w, earlier), call, origin) ==> PlainTexts(call)))
  }

  ghost predicate DigestHistory(history: seq<Row>) {
    forall r :: r in history ==> |RootBytes(r)| == 32
  }

  lemma PlainLinkIsSeeded(w: Setup, t: Tables, call: Call, origin: string)
    requires Sound(w, t) && Extends(w, t, call, origin) && PlainTexts(call)
    requires |RootBytes(Latest(t.checkpoints, origin).value)| == 32
    ensures Seeded(t, call, origin)
  {
    NewSignature(w, t, call);
    LatestIsFirst(t.checkpoints, origin);
    assert SoundRow(w, t.origins, Latest(t.checkpoints, origin).value);
    hide Cosigned, FromHex, Reached, IsPowerOfTwo;
    if OfferedProof(call).value != [] {
      HexLength(call.proof.value[0]);
    }
  }

  /** Such a test on every call it signs is enough, whatever else it is sent. */
  lemma {:induction false} PlainRunIsSeeded(w: Setup, calls: seq<Call>, origin: string)
    requires PlainRun(w, calls, origin)
    ensures SeededRun(w, calls, origin) && DigestHistory(History(Run(w, calls).checkpoints, origin))
  {
    if calls != [] {
      var earlier, call := calls[..|calls| - 1], calls[|calls| - 1];
      var t := Run(w, earlier);
      PlainRunIsSeeded(w, earlier, origin);
      RunIsSound(w, earlier);
      HistoryEffect(w, t, call, origin);
      hide Cosigned, Seeded, FromHex;
      if SignsFor(w, t, call, origin) {
        HexLength(RootText(call.checkpoint.fields));
        if Extends(w, t, call, origin) {
          LatestIsLast(t.checkpoints, origin);
          PlainLinkIsSeeded(w, t, call, origin);
        }
      }
    }
  }

  // ---------------------------------------------------------------- the entries under the leaves

  /** The entries themselves: what the log held at one co-signature it held, in place, at every later one. */
  lemma {:induction false} CosignedEntriesArePrefixes(w: Setup, calls: seq<Call>, origin: string,
                                                      earlier: seq<Bytes>, later: seq<Bytes>, i: nat, j: nat)
    requires SeededRun(w, calls, origin)
    requires var history := History(Run(w, calls).checkpoints, origin);
             i <= j < |history| && RootOf(w, history[i], LeafHashes(w.hasher, earlier))
             && RootOf(w, history[j], LeafHashes(w.hasher, later))
    requires var a, b := LeafHashes(w.hasher, earlier), LeafHashes(w.hasher, later);
             NoCollision(w.hasher, RunInputs(w, calls) + TreeInputs(w.hasher, a, 0, |a|) + TreeInputs(w.hasher, b, 0, |b|))
    requires NoCollision(w.hasher, LeafInputs(earlier) + LeafInputs(later))
    ensures earlier <= later
  {
    hide Run, RunInputs, TreeInputs, History, SeededRun, RootOf;
    var a, b := LeafHashes(w.hasher, earlier), LeafHashes(w.hasher, later);
    CosignedLogsArePrefixes(w, calls, origin, a, b, i, j);
    hide LeafHashes;
    forall k | 0 <= k < |earlier| ensures earlier[k] == later[k] {
      assert a[k] == b[k];
      SameLeaf(w.hasher, earlier, later, k);
    }
  }

  lemma SameLeaf(h: Hasher, earlier: seq<Bytes>, later: seq<Bytes>, k: nat)
    requires k < |earlier| && k < |later| && LeafHash(h, earlier[k]) == LeafHash(h, later[k])
    requires NoCollision(h, LeafInputs(earlier) + LeafInputs(later))
    ensures earlier[k] == later[k]
  {
    var x, y := LeafInput(earlier[k]), LeafInput(later[k]);
    assert x in LeafInputs(earlier) && y in LeafInputs(later);
    assert x == y && x[1..] == earlier[k] && y[1..] == later[k];
  }
}
